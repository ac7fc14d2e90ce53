/**
 * src/components/DiffDialog.jsx: `visualizeWhitespace`, which, when the
 * dialog's whitespace switch is on, shows each blank as '·' (U+00B7), each
 * tab as '⇥' (U+21E5) and each line break as '↵' (U+21B5) followed by the
 * break itself. All three marks are single UTF-16 code units.
 */
module DiffDialog {
  import opened Wrappers
  import opened JsString

  const Dot: char := '·'
  const TabMark: char := '⇥'
  const Return: char := '↵'

  /** `s.replace(/c/g, rep)` for a one-character pattern. */
  function ReplaceAll(s: string, c: char, rep: string): (r: string)
    ensures c !in rep ==> c !in r
    ensures forall d :: d != c && d !in rep ==> (d in r <==> d in s)
  {
    if s == [] then []
    else (if s[0] == c then rep else [s[0]]) + ReplaceAll(s[1..], c, rep)
  }

  lemma {:induction false} ReplaceAllAppend(a: string, b: string, c: char, rep: string)
    ensures ReplaceAll(a + b, c, rep) == ReplaceAll(a, c, rep) + ReplaceAll(b, c, rep)
  {
    if a != [] {
      assert (a + b)[1..] == a[1..] + b;
      ReplaceAllAppend(a[1..], b, c, rep);
    } else {
      assert a + b == b;
    }
  }

  /** What one character of the text is shown as. */
  function Glyph(ch: char): string {
    if ch == ' ' then [Dot]
    else if ch == '\t' then [TabMark]
    else if ch == '\n' then [Return, '\n']
    else [ch]
  }

  /** The shown text, one character at a time. */
  function Glyphs(s: string): string {
    if s == [] then [] else Glyph(s[0]) + Glyphs(s[1..])
  }

  /** No blank and no tab is left in the shown text. */
  lemma {:induction false} GlyphsHideBlanks(s: string)
    ensures ' ' !in Glyphs(s) && '\t' !in Glyphs(s)
  {
    if s != [] {
      GlyphsHideBlanks(s[1..]);
    }
  }

  /** The code units and line breaks one character is shown with. */
  lemma GlyphCount(ch: char)
    ensures |Glyph(ch)| == if ch == '\n' then 2 else 1
    ensures Count(Glyph(ch), '\n') == if ch == '\n' then 1 else 0
  {
    var g := Glyph(ch);
    if ch == '\n' {
      assert g[1..] == "\n" && g[1..][1..] == [];
      assert Count(g[1..], '\n') == 1;
    } else {
      assert g[1..] == [];
    }
  }

  /** Every line break is kept, and each adds one code unit, its '↵'. */
  lemma {:induction false} GlyphsCountBreaks(s: string)
    ensures |Glyphs(s)| == |s| + Count(s, '\n')
    ensures Count(Glyphs(s), '\n') == Count(s, '\n')
  {
    if s != [] {
      var g := Glyph(s[0]);
      var rest := Glyphs(s[1..]);
      assert Glyphs(s) == g + rest;
      assert Count(s, '\n') == (if s[0] == '\n' then 1 else 0) + Count(s[1..], '\n');
      GlyphCount(s[0]);
      GlyphsCountBreaks(s[1..]);
      CountAppend(g, rest, '\n');
    }
  }

  /** Every line break of the shown text comes right after a '↵'. */
  lemma {:induction false} GlyphsMarkBreaks(s: string)
    ensures forall i :: 0 <= i < |Glyphs(s)| && Glyphs(s)[i] == '\n' ==> 0 < i && Glyphs(s)[i - 1] == Return
  {
    if s != [] {
      var g := Glyph(s[0]);
      var rest := Glyphs(s[1..]);
      GlyphsMarkBreaks(s[1..]);
      var r := g + rest;
      assert Glyphs(s) == r;
      forall i | 0 <= i < |r| && r[i] == '\n' ensures 0 < i && r[i - 1] == Return {
        if i >= |g| {
          assert r[i] == rest[i - |g|];
          if i > |g| {
            assert r[i - 1] == rest[i - 1 - |g|];
          }
        }
      }
    }
  }

  /**
   * `visualizeWhitespace(s)`: with the switch off the value is returned as
   * it is, `null` and `undefined` included; with it on, a nullish value is
   * shown as "" and the three `replace` passes run in turn.
   */
  function VisualizeWhitespace(showWs: bool, s: Option<string>): (r: Option<string>)
    ensures !showWs ==> r == s
    ensures showWs ==> r == Some(Glyphs(s.GetOr("")))
  {
    if !showWs then s
    else
      var text := if s.Some? then s.value else "";
      ThreePassesAreOne(text);
      Some(ReplaceAll(ReplaceAll(ReplaceAll(text, ' ', [Dot]), '\t', [TabMark]), '\n', [Return, '\n']))
  }

  /**
   * The three passes do what one pass of `Glyph` does: no pass produces a
   * character that a later pass replaces.
   */
  lemma {:induction false} ThreePassesAreOne(s: string)
    ensures ReplaceAll(ReplaceAll(ReplaceAll(s, ' ', [Dot]), '\t', [TabMark]), '\n', [Return, '\n']) == Glyphs(s)
  {
    if s != [] {
      var a := if s[0] == ' ' then [Dot] else [s[0]];
      var restA := ReplaceAll(s[1..], ' ', [Dot]);
      var b := if a[0] == '\t' then [TabMark] else a;
      assert ReplaceAll(a, '\t', [TabMark]) == b;
      ReplaceAllAppend(a, restA, '\t', [TabMark]);
      var restB := ReplaceAll(restA, '\t', [TabMark]);
      var c := if b[0] == '\n' then [Return, '\n'] else b;
      assert ReplaceAll(b, '\n', [Return, '\n']) == c;
      ReplaceAllAppend(b, restB, '\n', [Return, '\n']);
      ThreePassesAreOne(s[1..]);
    }
  }

  /**
   * Reading the marks back: '·' as a blank, '⇥' as a tab and '↵' followed
   * by a line break as the line break.
   */
  function Unvisualize(r: string): string {
    if r == [] then []
    else if r[0] == Dot then [' '] + Unvisualize(r[1..])
    else if r[0] == TabMark then ['\t'] + Unvisualize(r[1..])
    else if r[0] == Return && |r| > 1 && r[1] == '\n' then ['\n'] + Unvisualize(r[2..])
    else [r[0]] + Unvisualize(r[1..])
  }

  /** A text that holds none of the three marks can be read back from its shown form. */
  lemma {:induction false} UnvisualizeGlyphs(s: string)
    requires Dot !in s && TabMark !in s && Return !in s
    ensures Unvisualize(Glyphs(s)) == s
  {
    if s != [] {
      assert s == [s[0]] + s[1..];
      UnvisualizeGlyphs(s[1..]);
      var g := Glyph(s[0]);
      var rest := Glyphs(s[1..]);
      if s[0] == '\n' {
        assert (g + rest)[2..] == rest;
      } else {
        assert (g + rest)[1..] == rest;
      }
    }
  }
}
