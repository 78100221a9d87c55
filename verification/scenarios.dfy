/** Concrete compiler-output lines and what the pipeline does with them.
    Lines are assembled with `Format`, so `LineA` below is the text
    `shader.frag:5:0: error: 'foo' : undeclared identifier`. */
module Scenarios {
  import opened Options
  import opened ErrorPattern

  const LineA := Format("shader.frag", "5", "error", "'foo' : undeclared identifier")

  /** The token is the word between `:0: ` and the first `: `, that is
      `error`; the quoted identifier stays inside the description. */
  lemma TokenIsFirstField()
    ensures Match(LineA) == Some(Captures(11, "5", "error", "'foo' : undeclared identifier"))
  {
    FormatThenMatch("shader.frag", "5", "error", "'foo' : undeclared identifier");
  }

  /** The token is kept as captured: spaces around it are not trimmed, so
      the search later looks for ` main ` with its spaces. */
  lemma TokenNotTrimmed()
    ensures Match(Format("s.frag", "3", " main ", "bad")) == Some(Captures(6, "3", " main ", "bad"))
  {
    FormatThenMatch("s.frag", "3", " main ", "bad");
  }

  /** The two characters the pattern demands before its lazy prefix let a
      Windows drive letter through: the `:` at offset 1 cannot end the
      prefix, so the match starts at the `:` after the file name. */
  lemma DriveLetterSkipped()
    ensures Match(Format("C:\\a.frag", "7", "x", "y")) == Some(Captures(9, "7", "x", "y"))
  {
    FormatThenMatch("C:\\a.frag", "7", "x", "y");
  }

  /** A diagnostic that cites column 1 instead of 0 is not read at all,
      though it has the same shape. */
  lemma NonZeroColumnRejected()
    ensures Match("ab:5:1: x: y") == None
  {
  }
}
