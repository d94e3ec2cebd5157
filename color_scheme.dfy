/** src/file_tree/node/color_scheme.rs: the colours the renderer gives to each
    comparison category. */
module ColorSchemes {

  import opened Color

  datatype ColorScheme = ColorScheme(
    changed: TerminalColor,
    removed: TerminalColor,
    untracked: TerminalColor,
    standard: TerminalColor,
    default: TerminalColor)

  /** `impl Default for ColorScheme` */
  function DefaultScheme(): ColorScheme
  {
    ColorScheme(Yellow, Red, Blue, Green, Default)
  }

  /** Changed entries are yellow, removed red, untracked blue, unchanged green;
      the four category colours differ pairwise, so a reader can tell them apart. */
  lemma DefaultSchemeColors()
    ensures DefaultScheme().changed == Yellow
    ensures DefaultScheme().removed == Red
    ensures DefaultScheme().untracked == Blue
    ensures DefaultScheme().standard == Green
    ensures DefaultScheme().default == Default
    ensures var s := DefaultScheme();
      s.changed != s.removed && s.changed != s.untracked && s.changed != s.standard
      && s.removed != s.untracked && s.removed != s.standard && s.untracked != s.standard
  {
  }
}
