/** The output side of Rust's `fmt::Write`: a destination that text is
    appended to one piece at a time. */
module Fmt {

  /** A `fmt::Write` sink such as a `String` or a `Formatter`. Writes only
      append and never fail. */
  class Sink {
    var text: string

    constructor ()
      ensures text == []
    {
      text := [];
    }

    /** `write_str`: appends `s` and leaves what was written before unchanged. */
    method WriteStr(s: string)
      modifies this
      ensures text == old(text) + s
    {
      text := text + s;
    }
  }
}
