/**
 * Text normalisation and git blob hashing of src/utils/diffUtils.js.
 *
 * `normalizeXmlText` is a chain of string rewrites; `gitBlobSha` and
 * `gitBlobShaFromBytes` assemble git's loose-object frame
 * "blob " + decimal byte length + NUL + bytes in a fresh buffer and hand it
 * to SHA-1. SHA-1 and UTF-8 decoding are supplied by the platform.
 */
module DiffUtils {
  import opened Wrappers
  import opened Encoding
  import opened JsString

  /** A SHA-1 digest: 20 bytes. */
  type Digest = d: seq<byte> | |d| == 20 witness seq(20, _ => 0)

  /**
   * What the browser supplies: `crypto.subtle.digest("SHA-1", ·)` and
   * `new TextDecoder("utf-8").decode(·)` (which never throws: bad input
   * decodes to replacement characters).
   */
  datatype Platform = Platform(sha1: seq<byte> -> Digest, decodeUtf8: seq<byte> -> string)

  const Bom: char := '\U{FEFF}'

  // ------------------------------------------------------ normalizeXmlText

  /** `replace(/^﻿/, "")`: at most one leading byte-order mark goes. */
  function StripBom(s: string): string {
    if |s| > 0 && s[0] == Bom then s[1..] else s
  }

  /** The letters whose presence makes `normalizeXmlText` attempt a mojibake repair. */
  predicate IsMojibakeTrigger(c: char) {
    || c == '\U{00C3}' || c == '\U{011A}' || c == '\U{0160}' || c == '\U{017D}' || c == '\U{00DD}'
    || c == '\U{00C1}' || c == '\U{010C}' || c == '\U{0158}' || c == '\U{00CD}' || c == '\U{00C9}'
    || c == '\U{016E}' || c == '\U{00DA}' || c == '\U{010E}' || c == '\U{0164}' || c == '\U{0148}'
  }

  /** Text made of characters below U+00C1 never triggers the repair. */
  lemma NoTriggerBelowC1(s: string)
    requires forall i :: 0 <= i < |s| ==> s[i] < '\U{00C1}'
    ensures !HasMojibakeTrigger(s)
  {
  }

  predicate HasMojibakeTrigger(s: string) {
    exists i :: 0 <= i < |s| && IsMojibakeTrigger(s[i])
  }

  /**
   * The repair: every UTF-16 code unit is truncated to a byte and the bytes
   * are decoded as UTF-8. The decoder never throws, so the `catch` is dead.
   */
  function RepairMojibake(p: Platform, s: string): string {
    if HasMojibakeTrigger(s) then p.decodeUtf8(LowBytes(Utf16Units(s))) else s
  }

  /** `s` with every carriage return removed. */
  function DropCr(s: string): string {
    if s == [] then [] else (if s[0] == '\r' then [] else [s[0]]) + DropCr(s[1..])
  }

  /**
   * `replace(/\r\n/g, "\n")`: left to right, non-overlapping. Only carriage
   * returns are removed, so the text without them and the newlines are kept.
   */
  function CrlfToLf(s: string): (r: string)
    ensures DropCr(r) == DropCr(s)
    ensures |r| <= |s|
    ensures '\r' !in s ==> r == s
  {
    if s == [] then []
    else if |s| >= 2 && s[0] == '\r' && s[1] == '\n' then
      assert DropCr(s) == DropCr(s[1..]);
      assert s[1..][1..] == s[2..];
      "\n" + CrlfToLf(s[2..])
    else [s[0]] + CrlfToLf(s[1..])
  }

  /**
   * `s` with exactly the carriage returns that stand right before a line
   * feed removed; every other character, a lone carriage return included,
   * is kept in order.
   */
  function DropPairedCr(s: string): string {
    if s == [] then []
    else (if |s| >= 2 && s[0] == '\r' && s[1] == '\n' then [] else [s[0]]) + DropPairedCr(s[1..])
  }

  /** CRLF to LF is the filter that drops the carriage return of each CRLF pair and nothing else. */
  lemma {:induction false} CrlfToLfIsFilter(s: string)
    ensures CrlfToLf(s) == DropPairedCr(s)
  {
    if s != [] {
      if |s| >= 2 && s[0] == '\r' && s[1] == '\n' {
        assert s[1..][1..] == s[2..];
        CrlfToLfIsFilter(s[2..]);
        assert DropPairedCr(s[1..]) == "\n" + DropPairedCr(s[2..]);
      } else {
        CrlfToLfIsFilter(s[1..]);
      }
    }
  }

  /** Without line feeds nothing changes, carriage returns included. */
  lemma {:induction false} LoneCrKept(s: string)
    requires '\n' !in s
    ensures CrlfToLf(s) == s
  {
    if s != [] {
      if |s| >= 2 {
        assert s[1] in s;
      }
      assert forall c :: c in s[1..] ==> c in s;
      LoneCrKept(s[1..]);
    }
  }

  predicate IsBlank(c: char) { c == ' ' || c == '\t' }

  /** `s` is blanks up to a line terminator or the end: where a match of `/[ \t]+$/m` may stop. */
  predicate BlanksToLineEnd(s: string) {
    s == [] || IsLineTerminator(s[0]) || (IsBlank(s[0]) && BlanksToLineEnd(s[1..]))
  }

  /** `replace(/[ \t]+$/gm, "")`: every run of blanks that ends a line goes. */
  function StripTrailingBlanks(s: string): string {
    if s == [] then []
    else if IsBlank(s[0]) && BlanksToLineEnd(s[1..]) then StripTrailingBlanks(s[1..])
    else [s[0]] + StripTrailingBlanks(s[1..])
  }

  /** `s` without its spaces and tabs. */
  function DropBlanks(s: string): string {
    if s == [] then [] else (if IsBlank(s[0]) then [] else [s[0]]) + DropBlanks(s[1..])
  }

  /** Stripping trailing blanks removes spaces and tabs only: everything else stays, in order. */
  lemma {:induction false} StripRemovesOnlyBlanks(s: string)
    ensures DropBlanks(StripTrailingBlanks(s)) == DropBlanks(s)
  {
    if s != [] {
      StripRemovesOnlyBlanks(s[1..]);
      if !(IsBlank(s[0]) && BlanksToLineEnd(s[1..])) {
        assert ([s[0]] + StripTrailingBlanks(s[1..]))[1..] == StripTrailingBlanks(s[1..]);
      }
    }
  }

  /** Every character of `s` is a space or a tab. */
  predicate AllBlank(s: string) {
    s == [] || (IsBlank(s[0]) && AllBlank(s[1..]))
  }

  /** Text followed by a line break has a blank run to a line end exactly when it had one or is all blanks. */
  lemma {:induction false} BlanksToLineEndAppend(a: string, b: string)
    requires b != [] && IsLineTerminator(b[0])
    ensures BlanksToLineEnd(a + b) <==> BlanksToLineEnd(a) || AllBlank(a)
  {
    if a == [] {
      assert a + b == b;
    } else {
      assert (a + b)[1..] == a[1..] + b;
      BlanksToLineEndAppend(a[1..], b);
    }
  }

  /** A run of blanks that ends the text ends its line. */
  lemma {:induction false} AllBlanksToLineEnd(a: string)
    requires AllBlank(a)
    ensures BlanksToLineEnd(a)
  {
    if a != [] {
      AllBlanksToLineEnd(a[1..]);
    }
  }

  /** Each line is stripped on its own: a text split at a line terminator is stripped piece by piece. */
  lemma {:induction false} StripLinesApart(a: string, b: string)
    requires b != [] && IsLineTerminator(b[0])
    ensures StripTrailingBlanks(a + b) == StripTrailingBlanks(a) + StripTrailingBlanks(b)
  {
    if a == [] {
      assert a + b == b;
    } else {
      assert (a + b)[1..] == a[1..] + b;
      StripLinesApart(a[1..], b);
      BlanksToLineEndAppend(a[1..], b);
      if AllBlank(a[1..]) {
        AllBlanksToLineEnd(a[1..]);
      }
    }
  }

  /** Blanks that run into a character other than a blank or a line terminator are not trailing. */
  lemma {:induction false} BlanksBeforeWord(a: string, b: string)
    requires AllBlank(a)
    requires b != [] && !IsBlank(b[0]) && !IsLineTerminator(b[0])
    ensures !BlanksToLineEnd(a + b)
  {
    if a == [] {
      assert a + b == b;
    } else {
      assert (a + b)[1..] == a[1..] + b;
      BlanksBeforeWord(a[1..], b);
    }
  }

  lemma HeadSplit(a: string, b: string)
    requires a != []
    ensures a + b == [a[0]] + (a[1..] + b)
  {
    assert a == [a[0]] + a[1..];
  }

  /** A blank that does not run to a line end is kept. */
  lemma BlankKept(c: char, r: string)
    requires IsBlank(c) && !BlanksToLineEnd(r)
    ensures StripTrailingBlanks([c] + r) == [c] + StripTrailingBlanks(r)
  {
    assert ([c] + r)[0] == c && ([c] + r)[1..] == r;
  }

  /** Blanks followed on the same line by another character all survive. */
  lemma {:induction false} BlanksBeforeWordKept(a: string, b: string)
    requires AllBlank(a)
    requires b != [] && !IsBlank(b[0]) && !IsLineTerminator(b[0])
    ensures StripTrailingBlanks(a + b) == a + StripTrailingBlanks(b)
  {
    if a == [] {
      assert a + b == b;
    } else {
      var r := a[1..] + b;
      HeadSplit(a, b);
      BlanksBeforeWord(a[1..], b);
      BlanksBeforeWordKept(a[1..], b);
      BlankKept(a[0], r);
      HeadSplit(a, StripTrailingBlanks(b));
    }
  }

  /** No space or tab stands before a line terminator or at the end. */
  predicate NoBlankBeforeLineEnd(s: string) {
    && (|s| > 0 ==> !IsBlank(s[|s| - 1]))
    && forall i, j :: 0 <= i && j == i + 1 < |s| && IsBlank(s[i]) ==> !IsLineTerminator(s[j])
  }

  /** Number of '\n' ending `s`. */
  function TrailingNewlines(s: string): (k: nat)
    ensures k <= |s|
    ensures forall i :: |s| - k <= i < |s| ==> s[i] == '\n'
    ensures k < |s| ==> s[|s| - k - 1] != '\n'
  {
    if s != [] && s[|s| - 1] == '\n' then 1 + TrailingNewlines(s[..|s| - 1]) else 0
  }

  /** `replace(/\n+$/, "\n")`: the final run of newlines becomes one. */
  function CollapseTrailingNewlines(s: string): string {
    var k := TrailingNewlines(s);
    if k == 0 then s else s[..|s| - k] + "\n"
  }

  predicate EndsWithBlankLine(s: string) {
    |s| >= 2 && s[|s| - 2] == '\n' && s[|s| - 1] == '\n'
  }

  /** `normalizeXmlText(text)`; `None` is `null` or `undefined`. */
  function NormalizeXmlText(p: Platform, text: Option<string>): (r: string)
    ensures text == None || text == Some("") ==> r == ""
  {
    if text == None || text.value == "" then ""
    else CleanUp(RepairMojibake(p, StripBom(text.value)))
  }

  /**
   * The rewrites after the mojibake repair: CRLF to LF, trailing blanks
   * dropped, trailing newlines collapsed, then `trimStart`.
   */
  function CleanUp(t: string): string {
    TrimStart(CollapseTrailingNewlines(StripTrailingBlanks(CrlfToLf(t))))
  }

  /**
   * The normalised text starts with neither whitespace nor a byte-order
   * mark, has no blank before a line end and never ends in two newlines.
   */
  lemma NormalizedShape(p: Platform, text: Option<string>)
    ensures var r := NormalizeXmlText(p, text);
      && (r == [] || (!IsJsWhitespace(r[0]) && r[0] != Bom))
      && NoBlankBeforeLineEnd(r)
      && !EndsWithBlankLine(r)
  {
    if text.Some? && text.value != "" {
      CleanUpShape(RepairMojibake(p, StripBom(text.value)));
    }
  }

  /** The shape the clean-up leaves, whatever it is given. */
  lemma CleanUpShape(t: string)
    ensures var r := CleanUp(t);
      && (r == [] || (!IsJsWhitespace(r[0]) && r[0] != Bom))
      && NoBlankBeforeLineEnd(r)
      && !EndsWithBlankLine(r)
  {
    var u := StripTrailingBlanks(CrlfToLf(t));
    StripLeavesNoBlank(CrlfToLf(t));
    var v := CollapseTrailingNewlines(u);
    CollapseShape(u);
    SuffixShape(v, TrimStart(v));
  }

  lemma StripKeepsFirst(t: string)
    requires !BlanksToLineEnd(t)
    ensures StripTrailingBlanks(t) != [] && StripTrailingBlanks(t)[0] == t[0]
  {
  }

  lemma {:induction false} StripLeavesNoBlank(s: string)
    ensures NoBlankBeforeLineEnd(StripTrailingBlanks(s))
  {
    if s != [] {
      var t := StripTrailingBlanks(s[1..]);
      StripLeavesNoBlank(s[1..]);
      if !(IsBlank(s[0]) && BlanksToLineEnd(s[1..])) {
        var r := [s[0]] + t;
        assert StripTrailingBlanks(s) == r;
        if IsBlank(s[0]) {
          StripKeepsFirst(s[1..]);
        }
        forall i, j | 0 <= i && j == i + 1 < |r| && IsBlank(r[i])
          ensures !IsLineTerminator(r[j])
        {
          if i > 0 {
            assert r[i] == t[i - 1] && r[j] == t[j - 1];
          }
        }
      }
    }
  }

  /** Dropping a prefix keeps the no-trailing-blank shape. */
  lemma NoBlankSuffix(s: string, d: nat)
    requires NoBlankBeforeLineEnd(s) && d <= |s|
    ensures NoBlankBeforeLineEnd(s[d..])
  {
    var r := s[d..];
    forall i, j | 0 <= i && j == i + 1 < |r| && IsBlank(r[i])
      ensures !IsLineTerminator(r[j])
    {
      assert r[i] == s[d + i] && r[j] == s[d + j];
    }
    if |r| > 0 {
      assert r[|r| - 1] == s[|s| - 1];
    }
  }

  /** A blank followed by blanks up to a line end breaks the no-trailing-blank shape. */
  lemma {:induction false} BlankRunBreaksShape(s: string)
    requires |s| > 0 && IsBlank(s[0]) && BlanksToLineEnd(s[1..])
    ensures !NoBlankBeforeLineEnd(s)
  {
    if |s| > 1 && !IsLineTerminator(s[1]) {
      BlankRunBreaksShape(s[1..]);
      if NoBlankBeforeLineEnd(s) {
        NoBlankSuffix(s, 1);
      }
    } else if |s| > 1 {
      assert IsLineTerminator(s[1]);
    }
  }

  /** Text already free of trailing blanks is left alone. */
  lemma {:induction false} StripIdentity(s: string)
    requires NoBlankBeforeLineEnd(s)
    ensures StripTrailingBlanks(s) == s
  {
    if s != [] {
      if IsBlank(s[0]) && BlanksToLineEnd(s[1..]) {
        BlankRunBreaksShape(s);
        assert false;
      }
      NoBlankSuffix(s, 1);
      StripIdentity(s[1..]);
    }
  }

  lemma CollapseShape(s: string)
    requires NoBlankBeforeLineEnd(s)
    ensures NoBlankBeforeLineEnd(CollapseTrailingNewlines(s))
    ensures !EndsWithBlankLine(CollapseTrailingNewlines(s))
  {
    var k := TrailingNewlines(s);
    var r := CollapseTrailingNewlines(s);
    if k > 0 {
      var m := |s| - k;
      forall i, j | 0 <= i && j == i + 1 < |r|
        ensures IsBlank(r[i]) ==> !IsLineTerminator(r[j])
      {
        assert r[i] == s[i];
        if j < m {
          assert r[j] == s[j];
        } else {
          assert s[j] == '\n';
        }
      }
    }
  }

  lemma SuffixShape(v: string, r: string)
    requires |r| <= |v| && r == v[|v| - |r|..]
    requires NoBlankBeforeLineEnd(v) && !EndsWithBlankLine(v)
    ensures NoBlankBeforeLineEnd(r) && !EndsWithBlankLine(r)
  {
    NoBlankSuffix(v, |v| - |r|);
    if |r| >= 2 {
      assert r[|r| - 2] == v[|v| - 2] && r[|r| - 1] == v[|v| - 1];
    }
  }

  /** No carriage return and no mojibake trigger letter. */
  predicate IsPlain(s: string) {
    forall i :: 0 <= i < |s| ==> s[i] != '\r' && !IsMojibakeTrigger(s[i])
  }

  lemma {:induction false} StripKeepsPlain(s: string)
    requires IsPlain(s)
    ensures IsPlain(StripTrailingBlanks(s))
  {
    if s != [] {
      assert IsPlain(s[1..]) by {
        forall i | 0 <= i < |s[1..]| ensures s[1..][i] != '\r' && !IsMojibakeTrigger(s[1..][i]) {
          assert s[1..][i] == s[i + 1];
        }
      }
      StripKeepsPlain(s[1..]);
    }
  }

  /** Without a leading byte-order mark or a trigger letter, only the clean-up applies. */
  lemma NoRepairNeeded(p: Platform, s: string)
    requires s != "" && s[0] != Bom && !HasMojibakeTrigger(s)
    ensures NormalizeXmlText(p, Some(s)) == CleanUp(s)
  {
  }

  /** The normalisation of plain text is plain. */
  lemma NormalizeKeepsPlain(p: Platform, s: string)
    requires IsPlain(s)
    ensures IsPlain(NormalizeXmlText(p, Some(s)))
  {
    if s != "" {
      var b := StripBom(s);
      PlainSuffix(s, b);
      assert !HasMojibakeTrigger(b);
      assert '\r' !in b by {
        forall i | 0 <= i < |b| ensures b[i] != '\r' { }
      }
      assert CrlfToLf(b) == b;
      StripKeepsPlain(b);
      var v := CollapseTrailingNewlines(StripTrailingBlanks(b));
      PlainCollapse(StripTrailingBlanks(b));
      PlainSuffix(v, TrimStart(v));
    }
  }

  /** A suffix of plain text is plain. */
  lemma PlainSuffix(s: string, r: string)
    requires IsPlain(s) && |r| <= |s| && r == s[|s| - |r|..]
    ensures IsPlain(r)
  {
    forall i | 0 <= i < |r| ensures r[i] != '\r' && !IsMojibakeTrigger(r[i]) {
      assert r[i] == s[|s| - |r| + i];
    }
  }

  /** Collapsing the final newlines keeps plain text plain. */
  lemma PlainCollapse(u: string)
    requires IsPlain(u)
    ensures IsPlain(CollapseTrailingNewlines(u))
  {
    var k := TrailingNewlines(u);
    if k > 0 {
      var v := CollapseTrailingNewlines(u);
      forall i | 0 <= i < |v| ensures v[i] != '\r' && !IsMojibakeTrigger(v[i]) {
        if i < |u| - k { assert v[i] == u[i]; }
      }
    }
  }

  /** Plain text in normal form is a fixpoint of the clean-up. */
  lemma CleanUpFixpoint(r: string)
    requires IsPlain(r) && NoBlankBeforeLineEnd(r) && !EndsWithBlankLine(r)
    requires r == [] || !IsJsWhitespace(r[0])
    ensures CleanUp(r) == r
  {
    assert CrlfToLf(r) == r;
    StripIdentity(r);
    var k := TrailingNewlines(r);
    if k > 0 {
      assert k == 1;
      assert r[..|r| - 1] + "\n" == r;
    }
  }

  /** On plain text the normalisation is a projection: a second pass changes nothing. */
  lemma NormalizeIdempotent(p: Platform, s: string)
    requires IsPlain(s)
    ensures NormalizeXmlText(p, Some(NormalizeXmlText(p, Some(s)))) == NormalizeXmlText(p, Some(s))
  {
    var r := NormalizeXmlText(p, Some(s));
    NormalizeKeepsPlain(p, s);
    NormalizedShape(p, Some(s));
    if r != "" {
      assert !HasMojibakeTrigger(r);
      NoRepairNeeded(p, r);
      CleanUpFixpoint(r);
    }
  }

  /** A non-empty run of characters with no whitespace and no trigger letter. */
  predicate IsWord(w: string) {
    |w| > 0 && forall i :: 0 <= i < |w| ==> !IsJsWhitespace(w[i]) && !IsMojibakeTrigger(w[i])
  }

  /** Text with no blank at all trivially has no blank before a line end. */
  lemma NoBlanksAtAll(s: string)
    requires forall i :: 0 <= i < |s| ==> !IsBlank(s[i])
    ensures NoBlankBeforeLineEnd(s)
  {
  }

  lemma {:induction false} CrlfToLfAfterWord(w: string, t: string)
    requires '\r' !in w
    ensures CrlfToLf(w + t) == w + CrlfToLf(t)
  {
    if w != [] {
      var s := w + t;
      assert w[0] in w;
      assert s[0] == w[0] && s[1..] == w[1..] + t;
      assert CrlfToLf(s) == [w[0]] + CrlfToLf(w[1..] + t);
      assert forall c :: c in w[1..] ==> c in w;
      CrlfToLfAfterWord(w[1..], t);
      HeadThenRest(w, CrlfToLf(t));
    } else {
      assert w + t == t;
    }
  }

  lemma HeadThenRest(w: string, x: string)
    requires w != []
    ensures [w[0]] + (w[1..] + x) == w + x
  {
    assert [w[0]] + w[1..] == w;
  }

  /**
   * With carriage returns the normalisation is not idempotent: a line ending
   * "\r\r\n" becomes "\r\n" on the first pass and "\n" on the second.
   */
  lemma NotIdempotentOnCarriageReturns(p: Platform, w: string)
    requires IsWord(w)
    ensures NormalizeXmlText(p, Some(w + "\r\r\n")) == w + "\r\n"
    ensures NormalizeXmlText(p, Some(w + "\r\n")) == w + "\n"
  {
    assert !HasMojibakeTrigger(w + "\r\r\n") && !HasMojibakeTrigger(w + "\r\n") by {
      forall i | 0 <= i < |w| + 3 ensures !IsMojibakeTrigger((w + "\r\r\n")[i]) {
        if i < |w| { assert (w + "\r\r\n")[i] == w[i]; }
      }
      forall i | 0 <= i < |w| + 2 ensures !IsMojibakeTrigger((w + "\r\n")[i]) {
        if i < |w| { assert (w + "\r\n")[i] == w[i]; }
      }
    }
    assert '\r' !in w by {
      forall i | 0 <= i < |w| ensures w[i] != '\r' { }
    }
    NoRepairNeeded(p, w + "\r\r\n");
    NoRepairNeeded(p, w + "\r\n");
    WordLineCleanUp(w, "\r\r\n", "\r\n");
    WordLineCleanUp(w, "\r\n", "\n");
  }

  lemma WordLineCleanUp(w: string, ending: string, collapsed: string)
    requires IsWord(w)
    requires (ending == "\r\r\n" && collapsed == "\r\n") || (ending == "\r\n" && collapsed == "\n")
    ensures CleanUp(w + ending) == w + collapsed
  {
    assert '\r' !in w by {
      forall i | 0 <= i < |w| ensures w[i] != '\r' { }
    }
    CrlfToLfAfterWord(w, ending);
    CrlfEnding(ending, collapsed);
    var c := w + collapsed;
    NoBlanksAtAll(c);
    StripIdentity(c);
    assert c[|c| - 2] != '\n' by {
      if collapsed == "\n" {
        assert c[|c| - 2] == w[|w| - 1];
      }
    }
    SingleTrailingNewline(c);
    assert c[0] == w[0];
  }

  /** The two line endings the carriage-return example goes through. */
  lemma CrlfEnding(ending: string, collapsed: string)
    requires (ending == "\r\r\n" && collapsed == "\r\n") || (ending == "\r\n" && collapsed == "\n")
    ensures CrlfToLf(ending) == collapsed
  {
    if ending == "\r\r\n" {
      assert CrlfToLf(ending) == "\r" + CrlfToLf("\r\n");
    }
  }

  /** A text ending in exactly one newline keeps it. */
  lemma SingleTrailingNewline(c: string)
    requires |c| >= 2 && c[|c| - 1] == '\n' && c[|c| - 2] != '\n'
    ensures CollapseTrailingNewlines(c) == c
  {
    assert c[..|c| - 1][|c| - 2] == c[|c| - 2];
    assert TrailingNewlines(c) == 1;
    assert c[..|c| - 1] + "\n" == c;
  }

  /** Without carriage returns, blanks or leading whitespace only the final newlines change. */
  lemma CleanUpOnlyCollapses(s: string)
    requires forall i :: 0 <= i < |s| ==> s[i] != '\r' && !IsBlank(s[i])
    requires s != [] && !IsJsWhitespace(s[0])
    ensures CleanUp(s) == CollapseTrailingNewlines(s)
  {
    assert CrlfToLf(s) == s;
    NoBlanksAtAll(s);
    StripIdentity(s);
    var v := CollapseTrailingNewlines(s);
    assert v[0] == s[0];
  }

  /** Only the final run of newlines collapses: blank lines inside the text are kept. */
  lemma InteriorBlankLinesKept(p: Platform, w1: string, gap: string, w2: string)
    requires IsWord(w1) && IsWord(w2)
    requires forall i :: 0 <= i < |gap| ==> gap[i] == '\n'
    ensures NormalizeXmlText(p, Some(w1 + gap + w2 + "\n\n")) == w1 + gap + w2 + "\n"
  {
    var body := w1 + gap + w2;
    var s := body + "\n\n";
    WordsAndGapPlain(w1, gap, w2);
    NoRepairNeeded(p, s);
    CleanUpOnlyCollapses(s);
    TwoTrailingNewlines(body);
    assert s[..|s| - 2] == body;
  }

  /** Words separated by newlines and followed by two more hold no character any cleanup step touches. */
  lemma WordsAndGapPlain(w1: string, gap: string, w2: string)
    requires IsWord(w1) && IsWord(w2)
    requires forall i :: 0 <= i < |gap| ==> gap[i] == '\n'
    ensures var s := w1 + gap + w2 + "\n\n";
      && s[0] == w1[0]
      && forall i :: 0 <= i < |s| ==> s[i] != '\r' && !IsMojibakeTrigger(s[i]) && !IsBlank(s[i])
  {
    var body := w1 + gap + w2;
    var s := body + "\n\n";
    forall i | 0 <= i < |s| ensures s[i] != '\r' && !IsMojibakeTrigger(s[i]) && !IsBlank(s[i]) {
      if i < |w1| { assert s[i] == w1[i]; }
      else if i < |w1| + |gap| { assert s[i] == gap[i - |w1|]; }
      else if i < |body| { assert s[i] == w2[i - |w1| - |gap|]; }
    }
    assert s[0] == w1[0];
  }

  lemma TwoTrailingNewlines(body: string)
    requires body != [] && body[|body| - 1] != '\n'
    ensures TrailingNewlines(body + "\n\n") == 2
  {
    var s := body + "\n\n";
    assert s[..|s| - 1] == body + "\n";
    assert (body + "\n")[..|body|] == body;
  }

  // ------------------------------------------------------------ blob frames

  /** The ASCII bytes of "blob ". */
  const BlobTag: seq<byte> := [98, 108, 111, 98, 32]

  /** `encoder.encode(`blob ${len}\0`)`. */
  function BlobHeader(len: nat): (h: seq<byte>)
    ensures |h| == |BlobTag| + |DecimalString(len)| + 1
    ensures h[..|BlobTag|] == BlobTag
    ensures forall i :: 0 <= i < |DecimalString(len)| ==> h[|BlobTag| + i] == DecimalString(len)[i] as int
    ensures h[|h| - 1] == 0
  {
    var text := "blob " + DecimalString(len) + "\0";
    assert IsAscii(text);
    AsciiEncoding(text);
    var h := Utf8Encode(text);
    assert forall i :: 0 <= i < |DecimalString(len)| ==> text[5 + i] == DecimalString(len)[i];
    h
  }

  /** Git's loose-object frame of a blob: header, then the content bytes. */
  function BlobFrame(content: seq<byte>): seq<byte> {
    BlobHeader(|content|) + content
  }

  /** Bytes read back as the characters with the same codes. */
  function BytesAsText(b: seq<byte>): (t: string)
    ensures |t| == |b|
    ensures forall i :: 0 <= i < |b| ==> t[i] as int == b[i]
  {
    seq(|b|, i requires 0 <= i < |b| => b[i] as char)
  }

  /** The first NUL at or after `from`, or `|f|` when there is none. */
  function FindNul(f: seq<byte>, from: nat): (k: nat)
    requires from <= |f|
    ensures from <= k <= |f|
    ensures k < |f| ==> f[k] == 0
    ensures forall i :: from <= i < k ==> f[i] != 0
    decreases |f| - from
  {
    if from == |f| || f[from] == 0 then from else FindNul(f, from + 1)
  }

  /**
   * Reads a frame back: the tag, a decimal length up to the first NUL, then
   * exactly that many content bytes.
   */
  function ParseBlobFrame(f: seq<byte>): Option<seq<byte>> {
    if |f| < |BlobTag| || f[..|BlobTag|] != BlobTag then None
    else
      var z := FindNul(f, |BlobTag|);
      if z == |f| then None
      else match ParseDecimal(BytesAsText(f[|BlobTag|..z]))
        case Some(n) => if n == |f| - z - 1 then Some(f[z + 1..]) else None
        case None => None
  }

  /** The frame is lossless: the content and its length are read back from it. */
  lemma FrameRoundTrip(content: seq<byte>)
    ensures ParseBlobFrame(BlobFrame(content)) == Some(content)
  {
    var f := BlobFrame(content);
    var h := BlobHeader(|content|);
    var d := DecimalString(|content|);
    var z := |BlobTag| + |d|;
    assert f[..|BlobTag|] == h[..|BlobTag|];
    forall i | |BlobTag| <= i < z ensures f[i] != 0 {
      assert f[i] == h[i] == d[i - |BlobTag|] as int;
      assert IsDigit(d[i - |BlobTag|]);
    }
    assert f[z] == h[|h| - 1] == 0;
    assert FindNul(f, |BlobTag|) == z;
    assert BytesAsText(f[|BlobTag|..z]) == d by {
      forall i | 0 <= i < |d| ensures BytesAsText(f[|BlobTag|..z])[i] == d[i] {
        assert f[|BlobTag|..z][i] == h[|BlobTag| + i];
      }
    }
    DecimalRoundTrip(|content|);
    assert f[z + 1..] == content;
  }

  /** Different contents never share a frame. */
  lemma FrameInjective(a: seq<byte>, b: seq<byte>)
    requires BlobFrame(a) == BlobFrame(b)
    ensures a == b
  {
    FrameRoundTrip(a);
    FrameRoundTrip(b);
  }

  /** Empty content frames to "blob 0" and a NUL. */
  lemma EmptyFrame()
    ensures BlobFrame([]) == BlobTag + [48, 0]
  {
    assert DecimalString(0) == "0";
  }

  /**
   * `new Uint8Array(header.length + bytes.length)` filled by
   * `buf.set(header, 0)` and `buf.set(bytes, header.length)`.
   */
  method AssembleFrame(header: seq<byte>, content: seq<byte>) returns (buf: array<byte>)
    ensures fresh(buf)
    ensures buf[..] == header + content
  {
    buf := new byte[|header| + |content|](_ => 0);
    var i := 0;
    while i < |header|
      invariant 0 <= i <= |header|
      invariant forall k :: 0 <= k < i ==> buf[k] == header[k]
    {
      buf[i] := header[i];
      i := i + 1;
    }
    var j := 0;
    while j < |content|
      invariant 0 <= j <= |content|
      invariant forall k :: 0 <= k < |header| ==> buf[k] == header[k]
      invariant forall k :: 0 <= k < j ==> buf[|header| + k] == content[k]
    {
      buf[|header| + j] := content[j];
      j := j + 1;
    }
    forall k | 0 <= k < buf.Length
      ensures buf[k] == (header + content)[k]
    {
      if k >= |header| {
        assert buf[|header| + (k - |header|)] == content[k - |header|];
      }
    }
  }

  /** The lowercase hex SHA-1 of the blob whose content is `content`. */
  function BlobSha(p: Platform, content: seq<byte>): (sha: string)
    ensures |sha| == 40 && IsLowerHex(sha)
    ensures ParseHex(sha) == Some(p.sha1(BlobFrame(content)))
  {
    HexRoundTrip(p.sha1(BlobFrame(content)));
    HexString(p.sha1(BlobFrame(content)))
  }

  /** Equal object names mean equal frames were hashed (the digest is recovered from the name). */
  lemma BlobShaDeterminesDigest(p: Platform, a: seq<byte>, b: seq<byte>)
    requires BlobSha(p, a) == BlobSha(p, b)
    ensures p.sha1(BlobFrame(a)) == p.sha1(BlobFrame(b))
  {
  }

  /**
   * `gitBlobSha(text)`: the blob name of the UTF-8 bytes of the normalised
   * text. `None` stands for `null` or `undefined`.
   */
  method GitBlobSha(p: Platform, text: Option<string>) returns (sha: string)
    ensures |sha| == 40 && IsLowerHex(sha)
    ensures ParseHex(sha) == Some(p.sha1(BlobFrame(Utf8Encode(NormalizeXmlText(p, text)))))
    ensures sha == BlobSha(p, Utf8Encode(NormalizeXmlText(p, text)))
  {
    var normalized := NormalizeXmlText(p, if text == None then Some("") else text);
    var bytes := Utf8Encode(normalized);
    var buf := AssembleFrame(BlobHeader(|bytes|), bytes);
    sha := HexString(p.sha1(buf[..]));
    HexRoundTrip(p.sha1(buf[..]));
  }

  /**
   * The text `gitBlobShaFromBytes` hashes: the decoded bytes with one leading
   * byte-order mark removed and CRLF turned into LF; nothing else changes.
   */
  function BytesText(p: Platform, bytes: seq<byte>): (t: string)
    ensures t == DropPairedCr(StripBom(p.decodeUtf8(bytes)))
    ensures DropCr(t) == DropCr(StripBom(p.decodeUtf8(bytes)))
  {
    CrlfToLfIsFilter(StripBom(p.decodeUtf8(bytes)));
    CrlfToLf(StripBom(p.decodeUtf8(bytes)))
  }

  /** `gitBlobShaFromBytes(bytes)`. */
  method GitBlobShaFromBytes(p: Platform, bytes: seq<byte>) returns (sha: string)
    ensures |sha| == 40 && IsLowerHex(sha)
    ensures ParseHex(sha) == Some(p.sha1(BlobFrame(Utf8Encode(BytesText(p, bytes)))))
  {
    var text := p.decodeUtf8(bytes);
    if |text| > 0 && text[0] == Bom {
      text := text[1..];
    }
    text := CrlfToLf(text);
    var data := Utf8Encode(text);
    var buf := AssembleFrame(BlobHeader(|data|), data);
    sha := HexString(p.sha1(buf[..]));
    HexRoundTrip(p.sha1(buf[..]));
  }

  /** Only one byte-order mark is removed after decoding: a second one is hashed. */
  lemma OneBomRemoved(p: Platform, bytes: seq<byte>, t: string)
    requires p.decodeUtf8(bytes) == [Bom, Bom] + t
    requires '\r' !in t
    ensures BytesText(p, bytes) == [Bom] + t
  {
    assert StripBom([Bom, Bom] + t) == [Bom] + t;
    assert '\r' !in [Bom] + t;
  }

  /**
   * The two hashing paths disagree on a line ending in a blank: the bytes
   * path keeps the blank, the text path strips it, so different frames are
   * hashed.
   */
  lemma TrailingBlankSplitsHashes(p: Platform, bytes: seq<byte>, w: string)
    requires IsWord(w)
    requires p.decodeUtf8(bytes) == w + " "
    ensures BytesText(p, bytes) == w + " "
    ensures NormalizeXmlText(p, Some(w + " ")) == w
    ensures BlobFrame(Utf8Encode(BytesText(p, bytes))) != BlobFrame(Utf8Encode(NormalizeXmlText(p, Some(w + " "))))
  {
    TrailingBlankNormalized(p, w);
    BlankChangesFrame(w);
  }

  /** Normalising a word followed by a blank drops the blank. */
  lemma TrailingBlankNormalized(p: Platform, w: string)
    requires IsWord(w)
    ensures '\r' !in w + " "
    ensures NormalizeXmlText(p, Some(w + " ")) == w
  {
    var s := w + " ";
    assert forall i :: 0 <= i < |s| ==> s[i] != '\r' && !IsMojibakeTrigger(s[i]) by {
      forall i | 0 <= i < |s| ensures s[i] != '\r' && !IsMojibakeTrigger(s[i]) {
        if i < |w| { assert s[i] == w[i]; }
      }
    }
    assert s[0] == w[0];
    assert '\r' !in s;
    NoRepairNeeded(p, s);
    WordThenBlankCleanUp(w);
  }

  /** A text and the same text with one more blank are framed differently. */
  lemma BlankChangesFrame(w: string)
    ensures BlobFrame(Utf8Encode(w + " ")) != BlobFrame(Utf8Encode(w))
  {
    Utf8EncodeAppend(w, " ");
    assert |Utf8Encode(w + " ")| == |Utf8Encode(w)| + 1;
    if BlobFrame(Utf8Encode(w + " ")) == BlobFrame(Utf8Encode(w)) {
      FrameInjective(Utf8Encode(w + " "), Utf8Encode(w));
      assert false;
    }
  }

  lemma WordThenBlankCleanUp(w: string)
    requires IsWord(w)
    ensures CleanUp(w + " ") == w
  {
    var s := w + " ";
    assert '\r' !in s by {
      forall i | 0 <= i < |s| ensures s[i] != '\r' {
        if i < |w| { assert s[i] == w[i]; }
      }
    }
    assert CrlfToLf(s) == s;
    StripWordThenBlank(w);
    assert TrailingNewlines(w) == 0;
    assert w[0] == w[0];
  }

  lemma {:induction false} StripWordThenBlank(w: string)
    requires forall i :: 0 <= i < |w| ==> !IsJsWhitespace(w[i])
    ensures StripTrailingBlanks(w + " ") == w
  {
    if w == [] {
      assert StripTrailingBlanks(" ") == StripTrailingBlanks([]);
    } else {
      assert (w + " ")[1..] == w[1..] + " ";
      StripWordThenBlank(w[1..]);
      assert !IsBlank(w[0]);
    }
  }
}
