/** The sanitisers of assets/admin-excel.js: template ids, variable names,
    header cells and id disambiguation. */
module Sanitize {
  import opened Chars
  import opened Strings

  const MaxIdLength: nat := 80

  /** Inside `[\s-]`. */
  predicate IsSpaceOrDash(c: char) { IsSpace(c) || c == '-' }

  /** Outside `[a-z0-9_\s-]`. */
  predicate IsIdJunk(c: char) { !IsIdChar(c) && !IsSpaceOrDash(c) }

  /** Outside `[A-Za-z0-9_]`. */
  predicate IsNotWordChar(c: char) { !IsWordChar(c) }

  /** The shape every sanitised template id has. */
  predicate IsSanitizedId(s: string) {
    && (forall c :: c in s ==> IsIdChar(c))
    && NoDouble(s, '_')
    && |s| <= MaxIdLength
  }

  /** The shape of a canonical variable name (it may be empty). */
  predicate IsCanonicalName(s: string) {
    && (forall c :: c in s ==> IsIdChar(c))
    && NoDouble(s, '_')
    && (s == [] || (s[0] != '_' && s[|s| - 1] != '_'))
  }

  /** `String.prototype.slice(0, n)`. */
  function Take(s: string, n: nat): (r: string)
    ensures |r| <= n && |r| <= |s| && r == s[..|r|]
    ensures |s| <= n ==> r == s
  {
    if |s| <= n then s else s[..n]
  }

  lemma NoDoublePrefix(s: string, n: nat, x: char)
    requires NoDouble(s, x) && n <= |s|
    ensures NoDouble(s[..n], x)
  {
    forall i | 0 <= i < n - 1 ensures !(s[..n][i] == x && s[..n][i + 1] == x) {
      assert s[..n][i] == s[i] && s[..n][i + 1] == s[i + 1];
    }
  }

  lemma NoDoubleSuffix(s: string, n: nat, x: char)
    requires NoDouble(s, x) && n <= |s|
    ensures NoDouble(s[n..], x)
  {
    forall i | 0 <= i < |s| - n - 1 ensures !(s[n..][i] == x && s[n..][i + 1] == x) {
      assert s[n..][i] == s[n + i] && s[n..][i + 1] == s[n + i + 1];
    }
  }

  /** Lower-casing leaves strings of `[a-z0-9_]` alone. */
  lemma LowerOfIdChars(s: string)
    requires forall c :: c in s ==> IsIdChar(c)
    ensures Lower(s) == s
  {
    forall i | 0 <= i < |s| ensures Lower(s)[i] == s[i] {
      assert s[i] in s;
    }
  }

  lemma ToAsciiOfIdChars(s: string)
    requires forall c :: c in s ==> IsIdChar(c)
    ensures ToAscii(s) == s
  {
    ToAsciiOfPlain(s);
  }

  /** `replace(/_+/g, '_')`. */
  function Collapse(s: string): (r: string)
    ensures NoDouble(r, '_')
    ensures forall c :: c in r ==> c in s || c == '_'
  {
    ReplaceRunsNoDouble(s, IsUnderscore, '_');
    ReplaceRuns(s, IsUnderscore, "_")
  }

  /** `replace(/^_+/, '')`. */
  function StripLeading(s: string): (r: string)
    requires NoDouble(s, '_')
    ensures NoDouble(r, '_')
    ensures forall c :: c in r ==> c in s
    ensures r == [] || r[0] != '_'
  {
    var r := DropWhile(s, IsUnderscore);
    NoDoubleSuffix(s, |s| - |r|, '_');
    r
  }

  /** `replace(/_+$/, '')`. */
  function StripTrailing(s: string): (r: string)
    requires NoDouble(s, '_')
    ensures NoDouble(r, '_')
    ensures forall c :: c in r ==> c in s
    ensures r == [] || r[|r| - 1] != '_'
    ensures |r| <= |s| && (r == [] || r[0] == s[0])
  {
    var r := DropLastWhile(s, IsUnderscore);
    NoDoublePrefix(s, |r|, '_');
    r
  }

  /** `replace(/^_+|_+$/g, '')`. */
  function StripUnderscores(s: string): (r: string)
    requires NoDouble(s, '_')
    ensures NoDouble(r, '_')
    ensures forall c :: c in r ==> c in s
    ensures r == [] || (r[0] != '_' && r[|r| - 1] != '_')
  {
    StripTrailing(StripLeading(s))
  }

  // ---------------------------------------------------------------------------
  // idSanitize (assets/admin-excel.js:43-48)

  /** Lower-case, transliterate, turn every run of characters outside
      `[a-z0-9_\s-]` into `_`, then every run of blanks and dashes into `_`,
      collapse runs of `_`, keep the first 80 characters and finally drop
      anything outside `[A-Za-z0-9_]`. */
  function IdSanitize(s: string): (r: string)
    ensures IsSanitizedId(r)
  {
    var c := ReplaceRuns(JunkToUnderscores(ToAscii(Lower(s))), IsSpaceOrDash, "_");
    assert forall ch :: ch in c ==> IsIdChar(ch);
    Shorten(Collapse(c))
  }

  /** Each run of characters outside `[a-z0-9_\s-]` turned into `_`. */
  function JunkToUnderscores(a: string): (b: string)
    ensures forall c :: c in b ==> IsIdChar(c) || IsSpaceOrDash(c)
  {
    ReplaceRuns(a, IsIdJunk, "_")
  }

  /** The first 80 characters, then only the word characters of those. */
  function Shorten(d: string): (r: string)
    requires forall c :: c in d ==> IsIdChar(c) || c == '_'
    requires NoDouble(d, '_')
    ensures IsSanitizedId(r)
  {
    var e := Take(d, MaxIdLength);
    NoDoublePrefix(d, |e|, '_');
    assert forall ch :: ch in e ==> ch in d;
    FilterAll(e, IsWordChar);
    Filter(e, IsWordChar)
  }

  lemma IdPrefixStagesOfSanitized(t: string)
    requires IsSanitizedId(t)
    ensures ToAscii(Lower(t)) == t
  {
    LowerOfIdChars(t);
    ToAsciiOfIdChars(t);
  }

  lemma JunkRunsOfIdChars(t: string)
    requires forall c :: c in t ==> IsIdChar(c)
    ensures ReplaceRuns(t, IsIdJunk, "_") == t
  {
    ReplaceRunsNoMatch(t, IsIdJunk, "_");
  }

  lemma BlankRunsOfIdChars(t: string)
    requires forall c :: c in t ==> IsIdChar(c)
    ensures ReplaceRuns(t, IsSpaceOrDash, "_") == t
  {
    assert forall c :: IsIdChar(c) ==> !IsSpaceOrDash(c);
    ReplaceRunsNoMatch(t, IsSpaceOrDash, "_");
  }

  lemma CollapseOfSanitized(t: string)
    requires NoDouble(t, '_')
    ensures Collapse(t) == t
  {
    ReplaceRunsSingle(t, IsUnderscore, '_');
  }

  lemma IdSuffixStagesOfSanitized(t: string)
    requires IsSanitizedId(t)
    ensures Filter(Take(t, MaxIdLength), IsWordChar) == t
  {
    FilterAll(t, IsWordChar);
  }

  /** A sanitised id passes through the sanitiser unchanged. */
  lemma {:induction false} IdSanitizeOfSanitized(t: string)
    requires IsSanitizedId(t)
    ensures IdSanitize(t) == t
  {
    IdPrefixStagesOfSanitized(t);
    JunkRunsOfIdChars(t);
    BlankRunsOfIdChars(t);
    CollapseOfSanitized(t);
    IdSuffixStagesOfSanitized(t);
  }

  /** `idSanitize` is idempotent. */
  lemma IdSanitizeIdempotent(s: string)
    ensures IdSanitize(IdSanitize(s)) == IdSanitize(s)
  {
    IdSanitizeOfSanitized(IdSanitize(s));
  }

  // ---------------------------------------------------------------------------
  // canonicalVar (assets/admin-excel.js:140-144)

  /** Transliterate, trim and lower-case; an empty result stays empty;
      otherwise every run outside `[A-Za-z0-9_]` becomes `_`, runs of `_`
      collapse and `_` is stripped from both ends. */
  function CanonicalVar(name: string): (r: string)
    ensures IsCanonicalName(r)
  {
    var s := Lower(Trim(ToAscii(name)));
    if s == [] then [] else CanonicalWords(s)
  }

  /** The run-replacing half of `canonicalVar`, on lower-case text. */
  function CanonicalWords(s: string): (r: string)
    requires forall c :: c in s ==> !IsAsciiUpper(c)
    ensures IsCanonicalName(r)
  {
    var a := ReplaceRuns(s, IsNotWordChar, "_");
    assert forall c :: c in a ==> IsIdChar(c);
    var b := Collapse(a);
    assert forall c :: c in b ==> IsIdChar(c);
    StripUnderscores(b)
  }

  lemma CanonicalPrefixStages(t: string)
    requires IsCanonicalName(t)
    ensures Lower(Trim(ToAscii(t))) == t
  {
    ToAsciiOfIdChars(t);
    assert forall c :: c in t ==> !IsSpace(c);
    if t != [] {
      TrimOfTrimmed(t);
      LowerOfIdChars(t);
    }
  }

  lemma CanonicalRunStages(t: string)
    requires IsCanonicalName(t)
    ensures ReplaceRuns(t, IsNotWordChar, "_") == t
  {
    ReplaceRunsNoMatch(t, IsNotWordChar, "_");
  }

  lemma CanonicalStripStage(t: string)
    requires IsCanonicalName(t)
    ensures StripUnderscores(t) == t
  {
    assert DropWhile(t, IsUnderscore) == t;
    assert DropLastWhile(t, IsUnderscore) == t;
  }

  /** A canonical name passes through `canonicalVar` unchanged. */
  lemma {:induction false} CanonicalVarOfCanonical(t: string)
    requires IsCanonicalName(t)
    ensures CanonicalVar(t) == t
  {
    CanonicalPrefixStages(t);
    if t != [] {
      CanonicalRunStages(t);
      CollapseOfSanitized(t);
      CanonicalStripStage(t);
    }
  }

  /** `canonicalVar` is idempotent. */
  lemma CanonicalVarIdempotent(name: string)
    ensures CanonicalVar(CanonicalVar(name)) == CanonicalVar(name)
  {
    CanonicalVarOfCanonical(CanonicalVar(name));
  }

  // ---------------------------------------------------------------------------
  // normKey and canonicalKey (assets/admin-excel.js:51-57)

  /** Inside `[_.:]`. */
  predicate IsKeySeparator(c: char) { c == '_' || c == '.' || c == ':' }

  predicate IsNotBom(c: char) { c != '\U{FEFF}' }

  /** Drop byte-order marks, trim, lower-case, turn each of `_`, `.`, `:` into
      a blank and collapse every run of white space into one blank. */
  function NormKey(s: string): (r: string)
    ensures forall c :: c in r ==> !IsKeySeparator(c) && !IsAsciiUpper(c) && !IsLatin1Upper(c)
    ensures forall c :: c in r && IsSpace(c) ==> c == ' '
    ensures NoDouble(r, ' ')
  {
    var d := SeparatorsToBlanks(Lower(Trim(Filter(s, IsNotBom))));
    BlankRunsShape(d);
    ReplaceRuns(d, IsSpace, " ")
  }

  /** Collapsing the blank runs of a text free of separators and capitals. */
  lemma BlankRunsShape(d: string)
    requires forall c :: c in d ==> !IsKeySeparator(c) && !IsAsciiUpper(c) && !IsLatin1Upper(c)
    ensures forall c :: c in ReplaceRuns(d, IsSpace, " ") ==> !IsKeySeparator(c) && !IsAsciiUpper(c) && !IsLatin1Upper(c)
    ensures forall c :: c in ReplaceRuns(d, IsSpace, " ") && IsSpace(c) ==> c == ' '
    ensures NoDouble(ReplaceRuns(d, IsSpace, " "), ' ')
  {
    ReplaceRunsNoDouble(d, IsSpace, ' ');
  }

  /** Each `_`, `.` and `:` of a lower-cased text turned into a blank. */
  function SeparatorsToBlanks(b: string): (d: string)
    requires forall c :: c in b ==> !IsAsciiUpper(c) && !IsLatin1Upper(c)
    ensures forall c :: c in d ==> !IsKeySeparator(c) && !IsAsciiUpper(c) && !IsLatin1Upper(c)
  {
    var d := MapChars(b, IsKeySeparator, ' ');
    forall c | c in d ensures !IsKeySeparator(c) && !IsAsciiUpper(c) && !IsLatin1Upper(c) {
      var i :| 0 <= i < |d| && d[i] == c;
      assert b[i] in b;
    }
    d
  }

  /** What `canonicalKey` produces: no white space, no `.` or `:`, no
      upper-case letter, and never two `_` in a row. */
  predicate IsCanonicalKey(s: string) {
    && (forall c :: c in s ==> !IsSpace(c) && c != '.' && c != ':' && !IsAsciiUpper(c) && !IsLatin1Upper(c))
    && NoDouble(s, '_')
  }

  /** `normKey` followed by turning each run of white space into `_`. */
  function CanonicalKey(s: string): (r: string)
    ensures IsCanonicalKey(r)
  {
    BlanksToUnderscores(NormKey(s))
  }

  /** Each blank of a normalised key becomes `_`. */
  function BlanksToUnderscores(n: string): (r: string)
    requires forall c :: c in n ==> !IsKeySeparator(c) && !IsAsciiUpper(c) && !IsLatin1Upper(c)
    requires forall c :: c in n && IsSpace(c) ==> c == ' '
    requires NoDouble(n, ' ')
    ensures IsCanonicalKey(r)
  {
    BlanksIsolated(n);
    ReplaceRunsIsolated(n, IsSpace, '_');
    UnderscoredBlanks(n);
    ReplaceRuns(n, IsSpace, "_")
  }

  lemma BlanksIsolated(n: string)
    requires forall c :: c in n && IsSpace(c) ==> c == ' '
    requires NoDouble(n, ' ')
    ensures Isolated(n, IsSpace)
  {
    forall i | 0 <= i < |n| - 1 ensures !(IsSpace(n[i]) && IsSpace(n[i + 1])) {
      assert n[i] in n && n[i + 1] in n;
    }
  }

  lemma UnderscoredBlanks(n: string)
    requires forall c :: c in n ==> !IsKeySeparator(c) && !IsAsciiUpper(c) && !IsLatin1Upper(c)
    requires Isolated(n, IsSpace)
    ensures IsCanonicalKey(MapChars(n, IsSpace, '_'))
  {
    var r := MapChars(n, IsSpace, '_');
    forall c | c in r
      ensures !IsSpace(c) && c != '.' && c != ':' && !IsAsciiUpper(c) && !IsLatin1Upper(c)
    {
      var i :| 0 <= i < |r| && r[i] == c;
      assert n[i] in n;
    }
    forall i | 0 <= i < |r| - 1 ensures !(r[i] == '_' && r[i + 1] == '_') {
      assert n[i] in n && n[i + 1] in n;
    }
  }

  lemma LowerOfNoUpper(s: string)
    requires forall c :: c in s ==> !IsAsciiUpper(c) && !IsLatin1Upper(c)
    ensures Lower(s) == s
  {
    forall i | 0 <= i < |s| ensures Lower(s)[i] == s[i] {
      assert s[i] in s;
    }
  }

  lemma KeyPrefixStages(s: string)
    requires IsCanonicalKey(s)
    ensures Lower(Trim(Filter(s, IsNotBom))) == s
  {
    FilterAll(s, IsNotBom);
    if s != [] {
      assert s[0] in s && s[|s| - 1] in s;
    }
    TrimOfTrimmed(s);
    LowerOfNoUpper(s);
  }

  /** The blanks that stand for the underscores of a canonical key are
      never adjacent. */
  lemma KeyBlanksIsolated(s: string)
    requires IsCanonicalKey(s)
    ensures forall i :: 0 <= i < |s| ==> (IsSpace(MapChars(s, IsKeySeparator, ' ')[i]) <==> s[i] == '_')
    ensures Isolated(MapChars(s, IsKeySeparator, ' '), IsSpace)
  {
    var d := MapChars(s, IsKeySeparator, ' ');
    forall i | 0 <= i < |s| ensures IsSpace(d[i]) <==> s[i] == '_' {
      assert s[i] in s;
    }
  }

  lemma KeyBlankStage(s: string)
    requires IsCanonicalKey(s)
    ensures ReplaceRuns(MapChars(s, IsKeySeparator, ' '), IsSpace, " ") == MapChars(s, IsKeySeparator, ' ')
  {
    var d := MapChars(s, IsKeySeparator, ' ');
    KeyBlanksIsolated(s);
    ReplaceRunsIsolated(d, IsSpace, ' ');
    forall c | c in d && IsSpace(c) ensures c == ' ' {
      var i :| 0 <= i < |d| && d[i] == c;
    }
    MapCharsFixed(d, IsSpace, ' ');
  }

  lemma KeyUnderscoreStage(s: string)
    requires IsCanonicalKey(s)
    ensures ReplaceRuns(MapChars(s, IsKeySeparator, ' '), IsSpace, "_") == s
  {
    var d := MapChars(s, IsKeySeparator, ' ');
    KeyBlanksIsolated(s);
    ReplaceRunsIsolated(d, IsSpace, '_');
    var r := MapChars(d, IsSpace, '_');
    forall i | 0 <= i < |s| ensures r[i] == s[i] {
      assert s[i] in s;
    }
  }

  /** A canonical key passes through `canonicalKey` unchanged. */
  lemma {:induction false} CanonicalKeyOfCanonical(s: string)
    requires IsCanonicalKey(s)
    ensures NormKey(s) == MapChars(s, IsKeySeparator, ' ')
    ensures CanonicalKey(s) == s
  {
    KeyPrefixStages(s);
    KeyBlankStage(s);
    KeyUnderscoreStage(s);
  }

  /** `canonicalKey` is idempotent. */
  lemma CanonicalKeyIdempotent(s: string)
    ensures CanonicalKey(CanonicalKey(s)) == CanonicalKey(s)
  {
    CanonicalKeyOfCanonical(CanonicalKey(s));
  }

  // ---------------------------------------------------------------------------
  // uniqueId (assets/admin-excel.js:49)

  /** The candidate tried after the first one: `${base}_${i}`. */
  function Suffixed(base: string, i: nat): string {
    base + "_" + Decimal(i)
  }

  /** The lower-cased ids already taken. */
  function LowerSet(taken: set<string>): set<string> {
    set x | x in taken :: Lower(x)
  }

  /** The first candidate: the base, or "modele" when the base is empty. */
  function FirstCandidate(base: string): string {
    if base == "" then "modele" else base
  }

  lemma LowerConcat(a: string, b: string)
    ensures Lower(a + b) == Lower(a) + Lower(b)
  {
  }

  lemma LowerSuffixed(base: string, i: nat)
    ensures Lower(Suffixed(base, i)) == Lower(base) + "_" + Decimal(i)
  {
    var tail := "_" + Decimal(i);
    assert Suffixed(base, i) == base + tail;
    LowerConcat(base, tail);
    assert forall c :: c in tail ==> IsIdChar(c);
    LowerOfIdChars(tail);
  }

  /** Different counters give different lower-cased candidates. */
  lemma SuffixedInjective(base: string, i: nat, j: nat)
    requires Lower(Suffixed(base, i)) == Lower(Suffixed(base, j))
    ensures i == j
  {
    LowerSuffixed(base, i);
    LowerSuffixed(base, j);
    var n := |Lower(base)| + 1;
    assert Decimal(i) == Lower(Suffixed(base, i))[n..];
    assert Decimal(j) == Lower(Suffixed(base, j))[n..];
    DecimalInjective(i, j);
  }

  /** The lower-cased candidates numbered 2 up to `i` - 1. */
  function TriedBelow(base: string, i: nat): set<string> {
    set j | 2 <= j < i :: Lower(Suffixed(base, j))
  }

  lemma {:induction false} TriedBelowSize(base: string, i: nat)
    requires 2 <= i
    ensures |TriedBelow(base, i)| == i - 2
    decreases i
  {
    if i > 2 {
      TriedBelowSize(base, i - 1);
      TriedBelowFresh(base, i - 1);
      TriedBelowGrow(base, i - 1);
    } else {
      assert TriedBelow(base, i) == {};
    }
  }

  /** The candidate numbered `i` is not among those numbered below it. */
  lemma TriedBelowFresh(base: string, i: nat)
    ensures Lower(Suffixed(base, i)) !in TriedBelow(base, i)
  {
    var x := Lower(Suffixed(base, i));
    if x in TriedBelow(base, i) {
      var j :| 2 <= j < i && Lower(Suffixed(base, j)) == x;
      SuffixedInjective(base, j, i);
    }
  }

  lemma TriedBelowGrow(base: string, i: nat)
    requires 2 <= i
    ensures TriedBelow(base, i + 1) == TriedBelow(base, i) + {Lower(Suffixed(base, i))}
  {
    var x := Lower(Suffixed(base, i));
    forall y | y in TriedBelow(base, i + 1) ensures y in TriedBelow(base, i) + {x} {
      var j :| 2 <= j < i + 1 && Lower(Suffixed(base, j)) == y;
      if j < i { assert y in TriedBelow(base, i); }
    }
    forall y | y in TriedBelow(base, i) + {x} ensures y in TriedBelow(base, i + 1) {
      if y != x {
        var j :| 2 <= j < i && Lower(Suffixed(base, j)) == y;
        assert y in TriedBelow(base, i + 1);
      } else {
        assert Lower(Suffixed(base, i)) in TriedBelow(base, i + 1);
      }
    }
  }

  /** The loop of `uniqueId` from counter `i` on, all earlier counters being taken. */
  function UniqueFrom(base: string, low: set<string>, i: nat): (r: string)
    requires 2 <= i
    requires forall j :: 2 <= j < i ==> Lower(Suffixed(base, j)) in low
    ensures Lower(r) !in low
    ensures exists k :: i <= k && r == Suffixed(base, k)
              && forall j :: 2 <= j < k ==> Lower(Suffixed(base, j)) in low
    decreases |low| + 2 - i
  {
    var cand := Suffixed(base, i);
    if Lower(cand) !in low then cand
    else
      TriedBelowSize(base, i + 1);
      assert TriedBelow(base, i + 1) <= low;
      assert |TriedBelow(base, i + 1)| <= |low| by {
        SubsetSize(TriedBelow(base, i + 1), low);
      }
      UniqueFrom(base, low, i + 1)
  }

  lemma SubsetSize<T>(a: set<T>, b: set<T>)
    requires a <= b
    ensures |a| <= |b|
  {
    assert b == a + (b - a);
  }

  /** Returns the first candidate whose lower case is not taken: the base
      (or "modele"), then `${base}_2`, `${base}_3`, ... */
  function UniqueId(base: string, taken: set<string>): (r: string)
    ensures Lower(r) !in LowerSet(taken)
    ensures Lower(FirstCandidate(base)) !in LowerSet(taken) ==> r == FirstCandidate(base)
    ensures Lower(FirstCandidate(base)) in LowerSet(taken) ==>
              exists k :: 2 <= k && r == Suffixed(base, k)
                && forall j :: 2 <= j < k ==> Lower(Suffixed(base, j)) in LowerSet(taken)
  {
    var low := LowerSet(taken);
    if Lower(FirstCandidate(base)) !in low then FirstCandidate(base)
    else UniqueFrom(base, low, 2)
  }

  /** With nothing taken, `uniqueId` returns its first candidate unchanged. */
  lemma UniqueIdNothingTaken(base: string)
    ensures UniqueId(base, {}) == FirstCandidate(base)
  {
  }
}
