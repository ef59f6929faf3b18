/** The output sink. The encoder writes through Rust's `core::fmt::Write`; the only
    sink the crate itself builds is a growable `String` (`to_string`, `into_string`),
    whose appends cannot fail. It is modelled as an object holding the text written
    so far, which every write extends at the end. */
module Writers {

  class Writer {
    var text: string

    constructor ()
      ensures text == []
    {
      text := [];
    }

    /** `write_str` */
    method WriteStr(s: string)
      modifies this
      ensures text == old(text) + s
    {
      text := text + s;
    }

    /** `write_char` */
    method WriteChar(c: char)
      modifies this
      ensures text == old(text) + [c]
    {
      text := text + [c];
    }
  }
}
