/**
 * src/utils/commonUtils.js: the bounded-concurrency map `mapLimit`, the
 * `.xml` filter `onlyXmlFiles` and the path clean-up `normalizePath`.
 *
 * `mapLimit` starts `min(limit, items.length)` runners that share one index
 * counter; each runner claims the next index and stores the mapper's result
 * at that index. The model runs the claims one after another, which is the
 * order the shared counter hands them out in.
 */
module CommonUtils {
  import opened Wrappers
  import opened JsString

  function Min(a: int, b: int): int { if a <= b then a else b }

  /** How `mapLimit` can reject. */
  datatype MapLimitError<E> =
    | RangeError        // `new Array(n)` with a negative `n`
    | Rejected(reason: E)  // a mapper call rejected; `Promise.all` passes it on

  /**
   * `mapLimit(items, limit, mapper)`. `claims` records the indices taken
   * from the shared counter, in the order they were taken.
   */
  method MapLimit<T, U, E>(items: seq<T>, limit: int, mapper: (T, nat) -> Result<U, E>)
    returns (r: Result<seq<U>, MapLimitError<E>>, ghost claims: seq<nat>)
    ensures Min(limit, |items|) < 0 ==> r == Failure(RangeError) && claims == []
    ensures Min(limit, |items|) == 0 ==> r == Success([]) && claims == []
    ensures Min(limit, |items|) > 0 ==>
      && |claims| <= |items|
      && (forall k :: 0 <= k < |claims| ==> claims[k] == k)
      && (r.Success? <==> forall k :: 0 <= k < |items| ==> mapper(items[k], k).Success?)
    ensures Min(limit, |items|) > 0 && r.Success? ==>
      && |claims| == |items| == |r.value|
      && forall k :: 0 <= k < |items| ==> mapper(items[k], k) == Success(r.value[k])
    ensures Min(limit, |items|) > 0 && r.Failure? ==>
      && r.error.Rejected?
      && |claims| > 0
      && mapper(items[|claims| - 1], |claims| - 1) == Failure(r.error.reason)
      && forall k :: 0 <= k < |claims| - 1 ==> mapper(items[k], k).Success?
  {
    var runners := Min(limit, |items|);
    claims := [];
    if runners < 0 {
      return Failure(RangeError), claims;
    }
    if runners == 0 {
      return Success([]), claims;
    }
    var ret: seq<U> := [];
    var i := 0;
    while i < |items|
      invariant 0 <= i <= |items|
      invariant |ret| == i == |claims|
      invariant forall k :: 0 <= k < i ==> claims[k] == k
      invariant forall k :: 0 <= k < i ==> mapper(items[k], k) == Success(ret[k])
    {
      var idx := i;
      i := i + 1;
      claims := claims + [idx];
      var result := mapper(items[idx], idx);
      if result.Failure? {
        return Failure(Rejected(result.error)), claims;
      }
      ret := ret + [result.value];
    }
    r := Success(ret);
  }

  // ---------------------------------------------------------- onlyXmlFiles

  /** An entry of a compare listing; `filename` may be missing. */
  datatype ChangedFile = ChangedFile(filename: Option<string>, status: string)

  /** `f.filename?.toLowerCase().endsWith(".xml")` is truthy. */
  predicate IsXmlFile(f: ChangedFile) {
    f.filename.Some? && HasXmlExtension(f.filename.value)
  }

  /** The `.xml` entries of a listing, in order. */
  function XmlEntries(files: seq<ChangedFile>): (r: seq<ChangedFile>)
    ensures |r| <= |files|
    ensures forall k :: 0 <= k < |r| ==> IsXmlFile(r[k]) && r[k] in files
    ensures forall f :: f in files && IsXmlFile(f) ==> f in r
  {
    if files == [] then []
    else (if IsXmlFile(files[0]) then [files[0]] else []) + XmlEntries(files[1..])
  }

  /** The filter works entry by entry, so it keeps the listing's order. */
  lemma {:induction false} XmlEntriesAppend(a: seq<ChangedFile>, b: seq<ChangedFile>)
    ensures XmlEntries(a + b) == XmlEntries(a) + XmlEntries(b)
  {
    if a == [] {
      assert a + b == b;
    } else {
      assert (a + b)[1..] == a[1..] + b;
      XmlEntriesAppend(a[1..], b);
    }
  }

  /** `onlyXmlFiles(files)`; `None` is `null` or `undefined`. */
  function OnlyXmlFiles(files: Option<seq<ChangedFile>>): (r: seq<ChangedFile>)
    ensures files == None ==> r == []
    ensures files.Some? ==> r == XmlEntries(files.value)
  {
    if files == None then [] else XmlEntries(files.value)
  }

  /** Applying the filter to its own output changes nothing. */
  lemma {:induction false} XmlEntriesIdempotent(files: seq<ChangedFile>)
    ensures XmlEntries(XmlEntries(files)) == XmlEntries(files)
  {
    if files != [] {
      XmlEntriesIdempotent(files[1..]);
      var head := if IsXmlFile(files[0]) then [files[0]] else [];
      XmlEntriesAppend(head, XmlEntries(files[1..]));
      if IsXmlFile(files[0]) {
        assert XmlEntries(head) == head by {
          assert head[1..] == [];
        }
      }
    }
  }

  // --------------------------------------------------------- normalizePath

  /** `replace(/^\/+/, "")`. */
  function StripLeadingSlashes(s: string): (r: string)
    ensures |r| <= |s| && r == s[|s| - |r|..]
    ensures r == [] || r[0] != '/'
    ensures forall i :: 0 <= i < |s| - |r| ==> s[i] == '/'
  {
    if s != [] && s[0] == '/' then StripLeadingSlashes(s[1..]) else s
  }

  /** `replace(/\\/g, "/")`. */
  function SlashesForBackslashes(s: string): (r: string)
    ensures |r| == |s|
    ensures forall i :: 0 <= i < |s| ==> r[i] == (if s[i] == '\\' then '/' else s[i])
  {
    if s == [] then [] else [if s[0] == '\\' then '/' else s[0]] + SlashesForBackslashes(s[1..])
  }

  /**
   * `normalizePath(p)`: leading slashes go first, then backslashes become
   * slashes. The result starts with '/' exactly when the first character
   * after the leading slashes is a backslash.
   */
  function NormalizePath(p: string): (r: string)
    ensures '\\' !in r
    ensures |r| <= |p|
    ensures var s := StripLeadingSlashes(p);
            (|r| > 0 && r[0] == '/') <==> (|s| > 0 && s[0] == '\\')
  {
    SlashesForBackslashes(StripLeadingSlashes(p))
  }

  /** Without that backslash a second pass changes nothing. */
  lemma NormalizePathIdempotent(p: string)
    requires StripLeadingSlashes(p) == [] || StripLeadingSlashes(p)[0] != '\\'
    ensures NormalizePath(NormalizePath(p)) == NormalizePath(p)
  {
    var r := NormalizePath(p);
    assert StripLeadingSlashes(r) == r;
    assert SlashesForBackslashes(r) == r;
  }

  /**
   * Stripping runs before the conversion, so a leading backslash survives
   * as a slash and only the second pass removes it.
   */
  lemma LeadingBackslashSurvives(w: string)
    requires '/' !in w && '\\' !in w
    ensures NormalizePath(['\\'] + w) == ['/'] + w
    ensures NormalizePath(['/'] + w) == w
  {
    assert SlashesForBackslashes(w) == w by {
      forall i | 0 <= i < |w| ensures SlashesForBackslashes(w)[i] == w[i] {
        assert w[i] != '\\';
      }
    }
    var b := ['\\'] + w;
    assert StripLeadingSlashes(b) == b;
    assert b[1..] == w;
    assert SlashesForBackslashes(b) == ['/'] + SlashesForBackslashes(w);
    var s := ['/'] + w;
    assert s[1..] == w;
    assert w == [] || w[0] != '/';
    assert StripLeadingSlashes(s) == StripLeadingSlashes(w) == w;
  }
}
