/** src/cli/color.rs: ANSI colours as Select Graphic Rendition control
    sequences (ECMA-48, section 8.3.117) and the `colorize` decoration. */
module Color {

  import opened Base

  datatype TerminalColor = Black | Red | Green | Yellow | Blue | Magenta | Cyan | White | Default

  const ESC: char := '\U{1B}'

  /** `impl Display for TerminalColor`: "ESC[0;3Nm" for the eight colours,
      "ESC[0m" (reset) for Default. */
  function Code(c: TerminalColor): (s: string)
  {
    match c
    case Black => [ESC] + "[0;30m"
    case Red => [ESC] + "[0;31m"
    case Green => [ESC] + "[0;32m"
    case Yellow => [ESC] + "[0;33m"
    case Blue => [ESC] + "[0;34m"
    case Magenta => [ESC] + "[0;35m"
    case Cyan => [ESC] + "[0;36m"
    case White => [ESC] + "[0;37m"
    case Default => [ESC] + "[0m"
  }

  /** Foreground colour number N of the parameter "3N", for the eight colours. */
  function ColorNumber(c: TerminalColor): nat
  {
    match c
    case Black => 0
    case Red => 1
    case Green => 2
    case Yellow => 3
    case Blue => 4
    case Magenta => 5
    case Cyan => 6
    case White => 7
    case Default => 8
  }

  /** The colour a control sequence selects, if it is one of the nine codes. */
  function ColorOfCode(s: string): (r: Option<TerminalColor>)
    ensures r.Some? ==> Code(r.value) == s
  {
    if s == [ESC] + "[0m" then Some(Default)
    else if |s| == 7 && s[..5] == [ESC] + "[0;3" && s[6] == 'm' && '0' <= s[5] <= '7' then
      var n := s[5] as int - '0' as int;
      var c := [Black, Red, Green, Yellow, Blue, Magenta, Cyan, White][n];
      assert Code(c) == [ESC] + "[0;3" + [s[5]] + "m";
      assert s == s[..5] + [s[5]] + "m";
      Some(c)
    else None
  }

  /** Every code is an SGR sequence: ESC '[' parameters 'm', with parameters
      "0;3N" for colour N = 0..7 and "0" (reset) for Default. */
  lemma CodesAreSgr(c: TerminalColor)
    ensures |Code(c)| >= 3 && Code(c)[0] == ESC && Code(c)[1] == '[' && Code(c)[|Code(c)| - 1] == 'm'
    ensures c != Default ==> |Code(c)| == 7 && Code(c)[2..5] == "0;3" && Code(c)[5] as int == '0' as int + ColorNumber(c)
    ensures c == Default ==> Code(c) == [ESC] + "[0m"
  {
  }

  /** The nine codes are pairwise distinct: a code determines its colour. */
  lemma CodesDistinct(c: TerminalColor)
    ensures ColorOfCode(Code(c)) == Some(c)
  {
  }

  lemma CodeInjective(a: TerminalColor, b: TerminalColor)
    requires Code(a) == Code(b)
    ensures a == b
  {
    CodesDistinct(a);
    CodesDistinct(b);
  }

  /** `TerminalColor::colorize`: the colour's code, the text, then the reset code. */
  function Colorize(s: string, c: TerminalColor): (r: string)
    ensures |r| == |Code(c)| + |s| + 4
    ensures r[|Code(c)|..|Code(c)| + |s|] == s
    ensures r[..|Code(c)|] == Code(c) && r[|r| - 4..] == Code(Default)
  {
    Code(c) + s + Code(Default)
  }

  /** Removing the leading code and the trailing reset gives back the text. */
  lemma ColorizeStrips(s: string, c: TerminalColor, t: string, d: TerminalColor)
    requires Colorize(s, c) == Colorize(t, d)
    ensures s == t && c == d
  {
    var r := Colorize(s, c);
    // the reset code "ESC[0m" is a prefix of no colour code "ESC[0;3Nm"
    assert r[3] == Code(c)[3] == Code(d)[3];
    assert |Code(c)| == |Code(d)|;
    assert Code(c) == r[..|Code(c)|] == Code(d);
    CodeInjective(c, d);
  }
}
