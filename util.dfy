/**
  util.py: the label normalisers `urlSafe` and `stripQuotesSpace`, and
  `mergeCodes`, which maps a raw code typed by an analyst onto the codebook
  through two special cases, a correction cache passed in and returned, and a
  nearest-neighbour search by edit distance.
 */
module Util {
  import opened PyStr
  import opened EditDistance

  // ---------------------------------------------------------------------------
  // urlSafe
  // ---------------------------------------------------------------------------

  /** The seven characters `urlSafe` never lets through. */
  predicate UrlUnsafe(c: char) {
    c == '/' || c == '?' || c == ':' || c == ' ' || c == '%' || c == '"' || c == '\''
  }

  /** The replacement chain applied after stripping, in the order of util.py. */
  function Substitute(t: string): string {
    var a := Replace(t, '/', "_");
    var b := Replace(a, '?', "_");
    var c := Replace(b, ':', " -");
    var d := Replace(c, ' ', "_");
    var e := Replace(d, '%', "");
    var f := Replace(e, '"', "");
    Replace(f, '\'', "")
  }

  function UrlSafe(s: string): (r: string)
    ensures forall c :: c in r ==> !UrlUnsafe(c)
  {
    Substitute(Strip(s))
  }

  /** What the chain does to one character on its own. */
  function Expand(x: char): (r: string)
    ensures forall c :: c in r ==> !UrlUnsafe(c)
  {
    if x == '/' || x == '?' || x == ' ' then "_"
    else if x == ':' then "_-"
    else if x == '%' || x == '"' || x == '\'' then ""
    else [x]
  }

  /** The character-by-character reading of the chain. */
  function ExpandAll(t: string): string {
    if t == [] then [] else Expand(t[0]) + ExpandAll(t[1..])
  }

  lemma SubstituteConcat(a: string, b: string)
    ensures Substitute(a + b) == Substitute(a) + Substitute(b)
  {
    var a1, b1 := Replace(a, '/', "_"), Replace(b, '/', "_");
    ReplaceConcat(a, b, '/', "_");
    var a2, b2 := Replace(a1, '?', "_"), Replace(b1, '?', "_");
    ReplaceConcat(a1, b1, '?', "_");
    var a3, b3 := Replace(a2, ':', " -"), Replace(b2, ':', " -");
    ReplaceConcat(a2, b2, ':', " -");
    var a4, b4 := Replace(a3, ' ', "_"), Replace(b3, ' ', "_");
    ReplaceConcat(a3, b3, ' ', "_");
    var a5, b5 := Replace(a4, '%', ""), Replace(b4, '%', "");
    ReplaceConcat(a4, b4, '%', "");
    var a6, b6 := Replace(a5, '"', ""), Replace(b5, '"', "");
    ReplaceConcat(a5, b5, '"', "");
    ReplaceConcat(a6, b6, '\'', "");
  }

  lemma ReplaceSingle(x: char, c: char, rep: string)
    ensures Replace([x], c, rep) == if x == c then rep else [x]
  {
    assert [x][1..] == [];
  }

  lemma SubstituteChar(x: char)
    ensures Substitute([x]) == Expand(x)
  {
    if x == ':' {
      ReplaceSingle(x, '/', "_");
      ReplaceSingle(x, '?', "_");
      ReplaceSingle(x, ':', " -");
      ReplaceConcat(" ", "-", ' ', "_");
      ReplaceSingle(' ', ' ', "_");
      ReplaceSingle('-', ' ', "_");
      assert " -" == [' '] + ['-'];
      ReplaceSingle('_', '%', "");
      ReplaceSingle('-', '%', "");
      ReplaceConcat("_", "-", '%', "");
      assert "_-" == ['_'] + ['-'];
      ReplaceConcat("_", "-", '"', "");
      ReplaceSingle('_', '"', "");
      ReplaceSingle('-', '"', "");
      ReplaceConcat("_", "-", '\'', "");
      ReplaceSingle('_', '\'', "");
      ReplaceSingle('-', '\'', "");
    } else if x == '/' || x == '?' || x == ' ' {
      ReplaceSingle(x, '/', "_");
      var a := Replace([x], '/', "_");
      ReplaceSingle(a[0], '?', "_");
      ReplaceSingle('_', ':', " -");
      ReplaceSingle('_', ' ', "_");
      ReplaceSingle('_', '%', "");
      ReplaceSingle('_', '"', "");
      ReplaceSingle('_', '\'', "");
    } else {
      ReplaceSingle(x, '/', "_");
      ReplaceSingle(x, '?', "_");
      ReplaceSingle(x, ':', " -");
      ReplaceSingle(x, ' ', "_");
      ReplaceSingle(x, '%', "");
      if x == '%' {
        assert Substitute([x]) == [];
      } else {
        ReplaceSingle(x, '"', "");
        if x != '"' {
          ReplaceSingle(x, '\'', "");
        }
      }
    }
  }

  /**
    `urlSafe` strips, then maps each character on its own: `/`, `?` and space
    become `_`, `:` becomes `_-`, and `%`, `"` and `'` disappear.
   */
  lemma {:induction false} UrlSafePerChar(s: string)
    ensures UrlSafe(s) == ExpandAll(Strip(s))
  {
    SubstituteIsExpandAll(Strip(s));
  }

  lemma {:induction false} SubstituteIsExpandAll(t: string)
    ensures Substitute(t) == ExpandAll(t)
  {
    if t == [] {
    } else {
      assert t == [t[0]] + t[1..];
      SubstituteConcat([t[0]], t[1..]);
      SubstituteChar(t[0]);
      SubstituteIsExpandAll(t[1..]);
    }
  }

  /** A label with no surrounding whitespace and none of the seven characters is left alone. */
  lemma UrlSafeFixedPoint(s: string)
    requires s == [] || (!IsSpace(s[0]) && !IsSpace(s[|s| - 1]))
    requires forall c :: c in s ==> !UrlUnsafe(c)
    ensures UrlSafe(s) == s
  {
    StripSpec(s);
    ReplaceAbsent(s, '/', "_");
    ReplaceAbsent(s, '?', "_");
    ReplaceAbsent(s, ':', " -");
    ReplaceAbsent(s, ' ', "_");
    ReplaceAbsent(s, '%', "");
    ReplaceAbsent(s, '"', "");
    ReplaceAbsent(s, '\'', "");
  }

  // ---------------------------------------------------------------------------
  // stripQuotesSpace
  // ---------------------------------------------------------------------------

  /** Drops one pair of surrounding double quotes (when there are two or more characters), then strips. */
  function StripQuotesSpace(s: string): (r: string)
    ensures |r| <= |s|
  {
    if |s| < 2 then Strip(s)
    else if s[0] == '"' && s[|s| - 1] == '"' then Strip(s[1..|s| - 1])
    else Strip(s)
  }

  /** The result never starts or ends with whitespace. */
  lemma StripQuotesSpaceTrimmed(s: string)
    ensures var r := StripQuotesSpace(s); r != [] ==> !IsSpace(r[0]) && !IsSpace(r[|r| - 1])
  {
    if |s| >= 2 && s[0] == '"' && s[|s| - 1] == '"' {
      StripSpec(s[1..|s| - 1]);
    } else {
      StripSpec(s);
    }
  }

  /** A label that is neither quote-wrapped nor padded is returned as it is. */
  lemma StripQuotesSpaceFixedPoint(s: string)
    requires s == [] || (!IsSpace(s[0]) && !IsSpace(s[|s| - 1]))
    requires |s| < 2 || s[0] != '"' || s[|s| - 1] != '"'
    ensures StripQuotesSpace(s) == s
  {
    StripSpec(s);
  }

  /** Exactly one pair of quotes is removed: inner quotes survive. */
  lemma StripQuotesSpaceOnePair(t: string)
    requires t == [] || (!IsSpace(t[0]) && !IsSpace(t[|t| - 1]))
    ensures StripQuotesSpace("\"" + t + "\"") == t
  {
    var s := "\"" + t + "\"";
    assert s[1..|s| - 1] == t;
    StripSpec(t);
  }

  // ---------------------------------------------------------------------------
  // mergeCodes
  // ---------------------------------------------------------------------------

  /** `editdistance.eval(code, c)` for every codebook entry `c`, in list order. */
  function Distances(code: string, codes: seq<string>): seq<nat> {
    seq(|codes|, j requires 0 <= j < |codes| => Lev(code, codes[j]))
  }

  /** `ds[i]` is minimal and every later distance is strictly larger. */
  ghost predicate LastMinAt(ds: seq<nat>, i: int) {
    && 0 <= i < |ds|
    && (forall j :: 0 <= j < |ds| ==> ds[i] <= ds[j])
    && (forall j :: i < j < |ds| ==> ds[i] < ds[j])
  }

  /**
    Index `i` of `codes` is at minimal edit distance from `code`, and every
    later entry is strictly farther: the entry that survives when a dict keyed
    by distance is overwritten in list order.
   */
  ghost predicate NearestAt(code: string, codes: seq<string>, i: int) {
    LastMinAt(Distances(code, codes), i)
  }

  /** Reference definition of the last minimum, scanning in list order. */
  function LastMinIndex(ds: seq<nat>): (i: nat)
    requires |ds| > 0
    ensures LastMinAt(ds, i)
    decreases |ds|
  {
    if |ds| == 1 then 0
    else
      var n := |ds| - 1;
      var p := LastMinIndex(ds[..n]);
      assert forall j :: 0 <= j < n ==> ds[..n][j] == ds[j];
      if ds[n] <= ds[p] then n else p
  }

  /** There is only one such index. */
  lemma LastMinUnique(ds: seq<nat>, i: int, j: int)
    requires LastMinAt(ds, i) && LastMinAt(ds, j)
    ensures i == j
  {
    assert ds[i] <= ds[j] && ds[j] <= ds[i];
  }

  /** The index `NearestAt` describes; the scan `LastMinIndex` shows there is one, and `LastMinUnique` that there is only one. */
  ghost function LastNearestIndex(code: string, codes: seq<string>): (i: nat)
    requires |codes| > 0
    ensures NearestAt(code, codes, i)
  {
    assert NearestAt(code, codes, LastMinIndex(Distances(code, codes)));
    var i: nat :| NearestAt(code, codes, i); i
  }

  ghost function LastNearest(code: string, codes: seq<string>): (r: string)
    requires |codes| > 0
    ensures r in codes
  {
    codes[LastNearestIndex(code, codes)]
  }

  /**
    The cache lookup and nearest-neighbour part of `mergeCodes` (util.py:33-53,
    identical in code-extract.py:61-81): a cached correction wins; otherwise the
    last nearest codebook entry is returned and recorded; an empty codebook
    gives `''`.
   */
  ghost function CorrectOrNearest(code: string, codes: seq<string>, cache: map<string, string>): (string, map<string, string>)
  {
    if code in cache then (cache[code], cache)
    else if |codes| == 0 then ("", cache)
    else (LastNearest(code, codes), cache[code := LastNearest(code, codes)])
  }

  const KeyloggerCode: string := UrlSafe("tracking keystrokes / keylogger")

  /** Specification of util.py's `mergeCodes`: the two special cases, then the cache and the search. */
  ghost function Resolve(code: string, codes: seq<string>, cache: map<string, string>): (string, map<string, string>)
  {
    if Lower(code) == "na" then ("", cache)
    else if Lower(code) == "keylogger" then (KeyloggerCode, cache)
    else CorrectOrNearest(code, codes, cache)
  }

  /** `sorted(distances)[0]`: the smallest key of the distance table. */
  method SmallestKey(m: map<nat, string>) returns (k: nat)
    requires m != map[]
    ensures k in m
    ensures forall d :: d in m ==> k <= d
  {
    var rest := m.Keys;
    k :| k in rest;
    rest := rest - {k};
    while rest != {}
      invariant rest <= m.Keys && k in m
      invariant forall d :: d in m && d !in rest ==> k <= d
      decreases rest
    {
      var d :| d in rest;
      if d < k {
        k := d;
      }
      rest := rest - {d};
    }
  }

  /**
    The distance loop of `mergeCodes` (util.py:39-43): fill a table keyed by
    edit distance, each entry overwriting the previous one with the same
    distance, then take the entry under the smallest key.
   */
  method NearestCode(code: string, codes: seq<string>) returns (r: Option<string>)
    ensures r.None? <==> |codes| == 0
    ensures r.Some? ==> r.value == LastNearest(code, codes)
  {
    ghost var ds := Distances(code, codes);
    var distances: map<nat, string> := map[];
    ghost var at: map<nat, nat> := map[];
    for i := 0 to |codes|
      invariant at.Keys == distances.Keys
      invariant forall d :: d in at ==> at[d] < i && codes[at[d]] == distances[d] && ds[at[d]] == d
      invariant forall j :: 0 <= j < i ==> ds[j] in at && j <= at[ds[j]]
    {
      var d := Lev(code, codes[i]);
      assert d == ds[i];
      distances := distances[d := codes[i]];
      at := at[d := i];
    }
    assert |codes| > 0 ==> ds[0] in at;
    if distances == map[] {
      return None;
    }
    var k := SmallestKey(distances);
    r := Some(distances[k]);
    ghost var i := at[k];
    assert LastMinAt(ds, i) by {
      forall j | 0 <= j < |codes| ensures ds[i] <= ds[j] {
        assert ds[j] in distances;
      }
      forall j | i < j < |codes| ensures ds[i] < ds[j] {
        assert ds[j] in distances;
      }
    }
    LastMinUnique(ds, i, LastNearestIndex(code, codes));
  }

  /** util.py's `mergeCodes`: returns the resolved code and the (possibly extended) cache. */
  method MergeCodes(code: string, codes: seq<string>, codeCorrections: map<string, string>)
    returns (r: string, corrections: map<string, string>)
    ensures (r, corrections) == Resolve(code, codes, codeCorrections)
  {
    var lower := Lower(code);
    if lower == "na" {
      return "", codeCorrections;
    }
    if lower == "keylogger" {
      return UrlSafe("tracking keystrokes / keylogger"), codeCorrections;
    }
    if code in codeCorrections {
      return codeCorrections[code], codeCorrections;
    }
    var nearest := NearestCode(code, codes);
    if nearest.Some? {
      corrections := codeCorrections[code := nearest.value];
      return nearest.value, corrections;
    }
    return "", codeCorrections;
  }

  // ---------------------------------------------------------------------------
  // Properties of mergeCodes
  // ---------------------------------------------------------------------------

  /** The four spellings that lower-case to `na`. */
  lemma LowerIsNa(code: string)
    ensures Lower(code) == "na" <==> code in {"na", "nA", "Na", "NA"}
  {
    if Lower(code) == "na" {
      assert |code| == 2 && LowerChar(code[0]) == 'n' && LowerChar(code[1]) == 'a';
      assert code == [code[0], code[1]];
    }
  }

  /**
    What `mergeCodes` returns in each case, in the order it checks them: `na`
    discards, `keylogger` gives a fixed code, a cache hit returns the cached
    value, a miss picks the last codebook entry at minimal distance and
    records exactly that one correction, and an empty codebook gives `''`.
   */
  lemma ResolveCases(code: string, codes: seq<string>, cache: map<string, string>)
    ensures var (r, c) := Resolve(code, codes, cache);
      && (Lower(code) == "na" ==> r == "" && c == cache)
      && (Lower(code) != "na" && Lower(code) == "keylogger" ==> r == KeyloggerCode && c == cache)
      && (Lower(code) != "na" && Lower(code) != "keylogger" ==>
            && (code in cache ==> r == cache[code] && c == cache)
            && (code !in cache && |codes| == 0 ==> r == "" && c == cache)
            && (code !in cache && |codes| > 0 ==>
                  && (exists i :: NearestAt(code, codes, i) && codes[i] == r)
                  && c == cache[code := r]
                  && c.Keys == cache.Keys + {code}
                  && forall k :: k in cache ==> c[k] == cache[k]))
  {
    if Lower(code) != "na" && Lower(code) != "keylogger" && code !in cache && |codes| > 0 {
      var i := LastNearestIndex(code, codes);
      assert NearestAt(code, codes, i) && codes[i] == Resolve(code, codes, cache).0;
    }
  }

  /** A code already in the codebook resolves to itself on a cache miss (distance zero is unique). */
  lemma ExactMatchResolvesToItself(code: string, codes: seq<string>, cache: map<string, string>)
    requires code in codes && code !in cache
    ensures CorrectOrNearest(code, codes, cache).0 == code
  {
    var i := LastNearestIndex(code, codes);
    var k :| 0 <= k < |codes| && codes[k] == code;
    var ds := Distances(code, codes);
    LevZero(code, code);
    assert ds[i] <= ds[k];
    LevZero(code, codes[i]);
  }

  /** The cache only grows: no entry is removed or changed. */
  lemma CorrectOrNearestGrows(code: string, codes: seq<string>, cache: map<string, string>)
    ensures var c := CorrectOrNearest(code, codes, cache).1;
      cache.Keys <= c.Keys && forall k :: k in cache ==> c[k] == cache[k]
  {
  }

  lemma ResolveGrows(code: string, codes: seq<string>, cache: map<string, string>)
    ensures var c := Resolve(code, codes, cache).1;
      cache.Keys <= c.Keys && forall k :: k in cache ==> c[k] == cache[k]
  {
    CorrectOrNearestGrows(code, codes, cache);
  }

  /** A second call with the returned cache gives the same code and leaves the cache as it is. */
  lemma ResolveIdempotent(code: string, codes: seq<string>, cache: map<string, string>)
    ensures var (r, c) := Resolve(code, codes, cache);
      Resolve(code, codes, c) == (r, c)
  {
  }

  /** Every cached correction is a codebook entry. */
  ghost predicate CacheInCodes(cache: map<string, string>, codes: seq<string>) {
    forall k :: k in cache ==> cache[k] in codes
  }

  /**
    When every cached value is a codebook entry, so is every non-empty result,
    and the invariant is kept.
   */
  lemma CorrectOrNearestInCodes(code: string, codes: seq<string>, cache: map<string, string>)
    requires CacheInCodes(cache, codes)
    ensures var (r, c) := CorrectOrNearest(code, codes, cache);
      (r == "" || r in codes) && CacheInCodes(c, codes)
  {
  }
}
