/** String and sequence primitives the source reaches through JavaScript's
    `String.prototype` methods and its literal regular expressions. Each
    regular expression of the source is written out here as an explicit
    recursive function over `seq<char>`. */
module Strings {
  import opened Chars

  datatype Option<T> = None | Some(value: T)

  // ---------------------------------------------------------------------------
  // Generic sequence helpers

  /** `Array.prototype.filter`. */
  function Filter<T(!new)>(s: seq<T>, p: T -> bool): (r: seq<T>)
    ensures |r| <= |s|
    ensures forall x :: x in r <==> x in s && p(x)
  {
    if s == [] then [] else (if p(s[0]) then [s[0]] else []) + Filter(s[1..], p)
  }

  lemma {:induction false} FilterConcat<T(!new)>(a: seq<T>, b: seq<T>, p: T -> bool)
    ensures Filter(a + b, p) == Filter(a, p) + Filter(b, p)
  {
    if a != [] {
      assert (a + b)[1..] == a[1..] + b;
      FilterConcat(a[1..], b, p);
    } else {
      assert a + b == b;
    }
  }

  lemma {:induction false} FilterAll<T(!new)>(s: seq<T>, p: T -> bool)
    requires forall x :: x in s ==> p(x)
    ensures Filter(s, p) == s
  {
    if s != [] {
      FilterAll(s[1..], p);
    }
  }

  predicate Distinct<T(==)>(s: seq<T>) {
    forall i, j :: 0 <= i < j < |s| ==> s[i] != s[j]
  }

  /** `Array.from(new Set(xs))`: the distinct elements of `xs`, each at the
      place of its first occurrence. It is written the way a `Set` is filled,
      one element at a time from the front, so the last element is added
      only when it was not seen before. */
  function Dedup<T(==,!new)>(xs: seq<T>): (r: seq<T>)
    ensures Distinct(r)
    ensures forall x :: x in r <==> x in xs
    ensures |r| <= |xs|
    decreases |xs|
  {
    if xs == [] then []
    else
      assert xs == xs[..|xs| - 1] + [xs[|xs| - 1]];
      var d := Dedup(xs[..|xs| - 1]);
      if xs[|xs| - 1] in d then d else d + [xs[|xs| - 1]]
  }

  /** Deduplicating a sequence that has no repetition changes nothing. */
  lemma {:induction false} DedupOfDistinct<T(!new)>(xs: seq<T>)
    requires Distinct(xs)
    ensures Dedup(xs) == xs
    decreases |xs|
  {
    if xs != [] {
      var init := xs[..|xs| - 1];
      DedupOfDistinct(init);
      assert xs[|xs| - 1] !in init;
      assert xs == init + [xs[|xs| - 1]];
    }
  }

  /** `Array.from(new Set([...a, ...b]))` for repetition-free `a` and `b`:
      all of `a`, then the elements of `b` that `a` lacks, in `b`'s order. */
  lemma {:induction false} DedupAppend<T(!new)>(a: seq<T>, b: seq<T>)
    requires Distinct(a) && Distinct(b)
    ensures Dedup(a + b) == a + Filter(b, x => x !in a)
    decreases |b|
  {
    if b == [] {
      assert a + b == a;
      DedupOfDistinct(a);
    } else {
      var init := b[..|b| - 1];
      var y := b[|b| - 1];
      assert b == init + [y];
      DedupAppend(a, init);
      assert y !in init;
      DedupAppendStep(a, init, y, x => x !in a);
    }
  }

  lemma DedupAppendStep<T(!new)>(a: seq<T>, init: seq<T>, y: T, p: T -> bool)
    requires forall x :: p(x) == (x !in a)
    requires y !in init
    requires Dedup(a + init) == a + Filter(init, p)
    ensures Dedup(a + (init + [y])) == a + Filter(init + [y], p)
  {
    var f := Filter(init, p);
    calc {
      Dedup(a + (init + [y]));
      { assert a + (init + [y]) == (a + init) + [y]; }
      Dedup((a + init) + [y]);
      { DedupSnoc(a + init, y); }
      if y in a + init then Dedup(a + init) else Dedup(a + init) + [y];
      { assert y in a + init <==> !p(y); }
      if p(y) then (a + f) + [y] else a + f;
      { FilterOne(y, p); SnocOrKeep(a, f, y, p(y)); }
      a + (f + Filter([y], p));
      { FilterConcat(init, [y], p); }
      a + Filter(init + [y], p);
    }
  }

  lemma SnocOrKeep<T>(a: seq<T>, f: seq<T>, y: T, keep: bool)
    ensures (if keep then (a + f) + [y] else a + f) == a + (f + if keep then [y] else [])
  {
    if keep {
      assert (a + f) + [y] == a + (f + [y]);
    } else {
      assert f + [] == f;
    }
  }

  lemma FilterOne<T(!new)>(y: T, p: T -> bool)
    ensures Filter([y], p) == if p(y) then [y] else []
  {
    assert [y][1..] == [];
  }

  /** Adding one element at the end: it is kept exactly when it is new. */
  lemma DedupSnoc<T(!new)>(xs: seq<T>, y: T)
    ensures Dedup(xs + [y]) == if y in xs then Dedup(xs) else Dedup(xs) + [y]
  {
    assert (xs + [y])[..|xs|] == xs;
  }

  /** The position of the first occurrence of `x`. */
  function FirstPosition<T(==)>(xs: seq<T>, x: T): (r: nat)
    requires x in xs
    ensures r < |xs| && xs[r] == x
    ensures forall k :: 0 <= k < r ==> xs[k] != x
  {
    if xs[0] == x then 0 else 1 + FirstPosition(xs[1..], x)
  }

  /** The elements of `d` come in the order of their first occurrence in
      `xs`. */
  predicate InFirstUseOrder<T(==)>(d: seq<T>, xs: seq<T>) {
    forall i, j :: 0 <= i < j < |d| && d[i] in xs && d[j] in xs ==>
      FirstPosition(xs, d[i]) < FirstPosition(xs, d[j])
  }

  /** Appending an element does not move the first occurrence of an element
      already there. */
  lemma FirstPositionSnoc<T>(xs: seq<T>, y: T, x: T)
    requires x in xs
    ensures FirstPosition(xs + [y], x) == FirstPosition(xs, x)
  {
    var a := FirstPosition(xs, x);
    var b := FirstPosition(xs + [y], x);
    assert (xs + [y])[a] == x;
  }

  /** `Array.from(new Set(xs.filter(p)))` lists the kept elements in the
      order of their first occurrence in `xs`. */
  lemma {:induction false} DedupFilterOrder<T(!new)>(xs: seq<T>, p: T -> bool)
    ensures InFirstUseOrder(Dedup(Filter(xs, p)), xs)
    decreases |xs|
  {
    if xs != [] {
      var ys := xs[..|xs| - 1];
      assert xs == ys + [xs[|xs| - 1]];
      DedupFilterOrder(ys, p);
      DedupFilterStep(ys, xs[|xs| - 1], p);
    }
  }

  /** `Array.from(new Set(xs))` lists the elements of `xs` in the order of
      their first occurrence. */
  lemma DedupOrder<T(!new)>(xs: seq<T>)
    ensures InFirstUseOrder(Dedup(xs), xs)
  {
    var all := (x: T) => true;
    DedupFilterOrder(xs, all);
    FilterAll(xs, all);
  }

  /** One more element at the end of `DedupFilterOrder`'s input. */
  lemma DedupFilterStep<T(!new)>(ys: seq<T>, x: T, p: T -> bool)
    requires InFirstUseOrder(Dedup(Filter(ys, p)), ys)
    ensures InFirstUseOrder(Dedup(Filter(ys + [x], p)), ys + [x])
  {
    var xs := ys + [x];
    var f := Filter(ys, p);
    var d := Dedup(f);
    assert Filter(xs, p) == f + Filter([x], p) by {
      FilterConcat(ys, [x], p);
    }
    assert Filter([x], p) == if p(x) then [x] else [] by {
      assert [x][1..] == [];
    }
    assert forall i :: 0 <= i < |d| ==> d[i] in ys;
    forall y | y in ys
      ensures FirstPosition(xs, y) == FirstPosition(ys, y)
    {
      FirstPositionSnoc(ys, x, y);
    }
    if p(x) {
      DedupSnoc(f, x);
      if x !in f {
        DedupNewLast(d, ys, xs, x);
      } else {
        DedupSameOrder(d, ys, xs);
      }
    } else {
      assert f + [] == f;
      DedupSameOrder(d, ys, xs);
    }
  }

  /** Order by first occurrence survives appending to `xs`. */
  lemma DedupSameOrder<T>(d: seq<T>, ys: seq<T>, xs: seq<T>)
    requires forall i :: 0 <= i < |d| ==> d[i] in ys
    requires forall y :: y in ys ==> y in xs && FirstPosition(xs, y) == FirstPosition(ys, y)
    requires InFirstUseOrder(d, ys)
    ensures InFirstUseOrder(d, xs)
  {
  }

  /** The step of `DedupFilterOrder` that adds a new element at the end. */
  lemma DedupNewLast<T>(d: seq<T>, ys: seq<T>, xs: seq<T>, x: T)
    requires xs == ys + [x] && x !in ys
    requires forall i :: 0 <= i < |d| ==> d[i] in ys
    requires InFirstUseOrder(d, ys)
    requires forall y :: y in ys ==> FirstPosition(xs, y) == FirstPosition(ys, y)
    ensures InFirstUseOrder(d + [x], xs)
  {
    assert FirstPosition(xs, x) == |ys| by {
      assert xs[|ys|] == x;
    }
    var e := d + [x];
    forall i, j | 0 <= i < j < |e| && e[i] in xs && e[j] in xs
      ensures FirstPosition(xs, e[i]) < FirstPosition(xs, e[j])
    {
      assert e[i] == d[i];
      if j < |d| {
        assert e[j] == d[j];
      }
    }
  }

  /** A property of every element is one of the head and of every element
      of the tail. */
  lemma ForallSplit<T>(s: seq<T>, p: T -> bool)
    requires s != []
    ensures (forall x :: x in s ==> p(x)) <==> p(s[0]) && forall x :: x in s[1..] ==> p(x)
  {
    assert s == [s[0]] + s[1..];
  }

  /** Some element of `src` is related to `x` by `p`. */
  ghost predicate HasSource<A, B>(x: A, src: seq<B>, p: (A, B) -> bool) {
    exists k :: 0 <= k < |src| && p(x, src[k])
  }

  /** Every element of `xs` is related by `p` to some element of `src`. */
  ghost predicate AllFrom<A, B>(xs: seq<A>, src: seq<B>, p: (A, B) -> bool) {
    forall j :: 0 <= j < |xs| ==> HasSource(xs[j], src, p)
  }

  /** Appending to the source keeps old witnesses; new elements related to
      the new source element have it as their witness. */
  lemma AllFromExtend<A, B>(xs: seq<A>, extra: seq<A>, src: seq<B>, b: B, p: (A, B) -> bool)
    requires AllFrom(xs, src, p)
    requires forall a :: a in extra ==> p(a, b)
    ensures AllFrom(xs + extra, src + [b], p)
  {
    var ys := xs + extra;
    var s := src + [b];
    forall j | 0 <= j < |ys| ensures HasSource(ys[j], s, p) {
      if j < |xs| {
        assert HasSource(xs[j], src, p);
        var w :| 0 <= w < |src| && p(xs[j], src[w]);
        assert s[w] == src[w] && ys[j] == xs[j];
        assert p(ys[j], s[w]);
      } else {
        assert ys[j] in extra;
        assert s[|src|] == b;
        assert p(ys[j], s[|src|]);
      }
    }
  }

  // ---------------------------------------------------------------------------
  // Per-character transformations

  /** `toLowerCase`, one character at a time. */
  function Lower(s: string): (r: string)
    ensures |r| == |s|
    ensures forall i :: 0 <= i < |s| ==> r[i] == ToLowerChar(s[i])
    ensures forall c :: c in r ==> !IsAsciiUpper(c) && !IsLatin1Upper(c)
  {
    seq(|s|, i requires 0 <= i < |s| => ToLowerChar(s[i]))
  }

  /** `normalize('NFD')`, restricted to the decompositions of the Latin-1 letters. */
  function Nfd(s: string): string {
    if s == [] then [] else Decompose(s[0]) + Nfd(s[1..])
  }

  /** The source's `toAscii`: canonical decomposition, then removal of the
      combining marks U+0300..U+036F. */
  function ToAscii(s: string): (r: string)
    ensures forall c :: c in r ==> !IsCombiningMark(c)
  {
    Filter(Nfd(s), c => !IsCombiningMark(c))
  }

  /** On characters below U+00C0 the transliteration changes nothing. */
  lemma {:induction false} ToAsciiOfPlain(s: string)
    requires forall c :: c in s ==> c < '\U{C0}'
    ensures ToAscii(s) == s
  {
    NfdOfPlain(s);
    FilterAll(s, c => !IsCombiningMark(c));
  }

  lemma {:induction false} NfdOfPlain(s: string)
    requires forall c :: c in s ==> c < '\U{C0}'
    ensures Nfd(s) == s
  {
    if s != [] {
      assert s[0] in s;
      assert forall c :: c in s[1..] ==> c in s;
      NfdOfPlain(s[1..]);
      assert s == [s[0]] + s[1..];
    }
  }

  /** `String.prototype.replace(/[x]/g, y)` for a class of single characters. */
  function MapChars(s: string, p: char -> bool, sub: char): (r: string)
    ensures |r| == |s|
    ensures forall i :: 0 <= i < |s| ==> r[i] == if p(s[i]) then sub else s[i]
  {
    seq(|s|, i requires 0 <= i < |s| => if p(s[i]) then sub else s[i])
  }

  // ---------------------------------------------------------------------------
  // Trimming

  /** `Boolean(s)` for a string. */
  predicate NonEmpty(s: string) { s != [] }

  /** `.map(s => s.trim())`. */
  function TrimEach(ss: seq<string>): (r: seq<string>)
    ensures |r| == |ss|
  {
    seq(|ss|, k requires 0 <= k < |ss| => Trim(ss[k]))
  }

  function DropWhile(s: string, p: char -> bool): (r: string)
    ensures |r| <= |s| && r == s[|s| - |r|..]
    ensures forall i :: 0 <= i < |s| - |r| ==> p(s[i])
    ensures r == [] || !p(r[0])
  {
    if s != [] && p(s[0]) then DropWhile(s[1..], p) else s
  }

  function DropLastWhile(s: string, p: char -> bool): (r: string)
    ensures |r| <= |s| && r == s[..|r|]
    ensures forall i :: |r| <= i < |s| ==> p(s[i])
    ensures r == [] || !p(r[|r| - 1])
  {
    if s != [] && p(s[|s| - 1]) then DropLastWhile(s[..|s| - 1], p) else s
  }

  /** `String.prototype.trim`. */
  function Trim(s: string): (r: string)
    ensures r == [] || (!IsSpace(r[0]) && !IsSpace(r[|r| - 1]))
  {
    DropLastWhile(DropWhile(s, IsSpace), IsSpace)
  }

  /** Trimming keeps a contiguous slice of the input and removes only white
      space: what lies before and after the slice is all white space. */
  lemma TrimSlice(s: string)
    ensures exists i, j :: 0 <= i <= j <= |s| && Trim(s) == s[i..j]
              && (forall k :: 0 <= k < i ==> IsSpace(s[k]))
              && (forall k :: j <= k < |s| ==> IsSpace(s[k]))
  {
    var a := DropWhile(s, IsSpace);
    var t := DropLastWhile(a, IsSpace);
    var i := |s| - |a|;
    PrefixOfSuffix(s, i, a, t, IsSpace);
    assert Trim(s) == s[i..i + |t|];
  }

  /** A prefix `t` of the suffix `a` of `s` is a slice of `s`, and what
      follows `t` in `a` follows it in `s`. */
  lemma PrefixOfSuffix(s: string, i: nat, a: string, t: string, p: char -> bool)
    requires i <= |s| && a == s[i..] && |t| <= |a| && t == a[..|t|]
    requires forall k :: |t| <= k < |a| ==> p(a[k])
    ensures t == s[i..i + |t|]
    ensures forall k :: i + |t| <= k < |s| ==> p(s[k])
  {
    forall k | i + |t| <= k < |s|
      ensures p(s[k])
    {
      assert s[k] == a[k - i];
    }
  }

  /** Trimming removes nothing but white space, and everything when the
      input is all white space. */
  lemma TrimEmpty(s: string)
    ensures Trim(s) == [] <==> forall c :: c in s ==> IsSpace(c)
  {
    var a := DropWhile(s, IsSpace);
    if Trim(s) == [] {
      forall c | c in s ensures IsSpace(c) {
        var i :| 0 <= i < |s| && s[i] == c;
      }
    } else {
      assert Trim(s)[0] in s by { TrimSlice(s); }
    }
  }

  /** A string with no white space at either end is its own trim. */
  lemma TrimOfTrimmed(s: string)
    requires s == [] || (!IsSpace(s[0]) && !IsSpace(s[|s| - 1]))
    ensures Trim(s) == s
  {
  }

  // ---------------------------------------------------------------------------
  // Regular-expression replacement of character runs

  /** `String.prototype.replace(/[p]+/g, rep)`: every maximal run of
      characters of the class `p` is replaced by `rep`. */
  function ReplaceRuns(s: string, p: char -> bool, rep: string): (r: string)
    ensures forall c :: c in r ==> c in rep || (c in s && !p(c))
    decreases |s|
  {
    if s == [] then []
    else if p(s[0]) then rep + ReplaceRuns(DropWhile(s, p), p, rep)
    else [s[0]] + ReplaceRuns(s[1..], p, rep)
  }

  /** No character of `s` is in the class: the replacement changes nothing. */
  lemma {:induction false} ReplaceRunsNoMatch(s: string, p: char -> bool, rep: string)
    requires forall c :: c in s ==> !p(c)
    ensures ReplaceRuns(s, p, rep) == s
  {
    if s != [] {
      ReplaceRunsNoMatch(s[1..], p, rep);
    }
  }

  /** `x` never occurs twice in a row in `s`. */
  predicate NoDouble(s: string, x: char) {
    forall i :: 0 <= i < |s| - 1 ==> !(s[i] == x && s[i + 1] == x)
  }

  /** The first character after rewriting runs to the single character `x`. */
  lemma ReplaceRunsHead(s: string, p: char -> bool, x: char)
    requires s != []
    ensures ReplaceRuns(s, p, [x]) != []
    ensures ReplaceRuns(s, p, [x])[0] == if p(s[0]) then x else s[0]
  {
  }

  /** Rewriting every run of a class that contains `x` to the single `x`
      leaves no `xx` behind. */
  lemma {:induction false} ReplaceRunsNoDouble(s: string, p: char -> bool, x: char)
    requires p(x)
    ensures NoDouble(ReplaceRuns(s, p, [x]), x)
    decreases |s|
  {
    if s != [] {
      var r := ReplaceRuns(s, p, [x]);
      if p(s[0]) {
        var t := DropWhile(s, p);
        ReplaceRunsNoDouble(t, p, x);
        if t != [] {
          ReplaceRunsHead(t, p, x);
        }
        assert r == [x] + ReplaceRuns(t, p, [x]);
      } else {
        ReplaceRunsNoDouble(s[1..], p, x);
        assert r == [s[0]] + ReplaceRuns(s[1..], p, [x]);
        assert s[0] != x;
      }
    }
  }

  /** No two characters of the class stand next to each other. */
  predicate Isolated(s: string, p: char -> bool) {
    forall i :: 0 <= i < |s| - 1 ==> !(p(s[i]) && p(s[i + 1]))
  }

  lemma IsolatedTail(s: string, p: char -> bool)
    requires s != [] && Isolated(s, p)
    ensures Isolated(s[1..], p)
  {
    var t := s[1..];
    forall i | 0 <= i < |t| - 1
      ensures !(p(t[i]) && p(t[i + 1]))
    {
      assert t[i] == s[i + 1] && t[i + 1] == s[i + 2];
    }
  }

  lemma MapCharsCons(s: string, p: char -> bool, sub: char)
    requires s != []
    ensures MapChars(s, p, sub) == [if p(s[0]) then sub else s[0]] + MapChars(s[1..], p, sub)
  {
  }

  /** When runs are single characters, rewriting each run to one character
      is a character-by-character substitution. */
  lemma {:induction false} ReplaceRunsIsolated(s: string, p: char -> bool, y: char)
    requires Isolated(s, p)
    ensures ReplaceRuns(s, p, [y]) == MapChars(s, p, y)
    decreases |s|
  {
    if s != [] {
      var t := s[1..];
      IsolatedTail(s, p);
      ReplaceRunsIsolated(t, p, y);
      MapCharsCons(s, p, y);
      if p(s[0]) {
        assert t == [] || !p(t[0]) by {
          if t != [] {
            assert t[0] == s[1];
          }
        }
        assert DropWhile(t, p) == t;
        assert DropWhile(s, p) == t;
      } else {
        assert ReplaceRuns(s, p, [y]) == [s[0]] + ReplaceRuns(t, p, [y]);
      }
    }
  }

  /** Substituting `sub` for characters that are already `sub` changes nothing. */
  lemma MapCharsFixed(s: string, p: char -> bool, sub: char)
    requires forall c :: c in s && p(c) ==> c == sub
    ensures MapChars(s, p, sub) == s
  {
    var r := MapChars(s, p, sub);
    forall i | 0 <= i < |s| ensures r[i] == s[i] {
      assert s[i] in s;
    }
  }

  /** Collapsing runs of `x` is the identity on a string without `xx`. */
  lemma ReplaceRunsSingle(s: string, p: char -> bool, x: char)
    requires forall c :: p(c) <==> c == x
    requires NoDouble(s, x)
    ensures ReplaceRuns(s, p, [x]) == s
  {
    ReplaceRunsIsolated(s, p, x);
    MapCharsFixed(s, p, x);
  }

  // ---------------------------------------------------------------------------
  // Searching

  predicate StartsWith(s: string, prefix: string) {
    |prefix| <= |s| && s[..|prefix|] == prefix
  }

  predicate OccursAt(s: string, pat: string, i: int) {
    0 <= i && i + |pat| <= |s| && s[i..i + |pat|] == pat
  }

  /** `String.prototype.indexOf(pat, from)`. */
  function IndexOfFrom(s: string, pat: string, from: nat): (r: Option<nat>)
    ensures r.Some? ==> from <= r.value && OccursAt(s, pat, r.value)
    ensures r.Some? ==> forall i :: from <= i < r.value ==> !OccursAt(s, pat, i)
    ensures r.None? ==> forall i :: from <= i ==> !OccursAt(s, pat, i)
    decreases |s| - from
  {
    if from + |pat| > |s| then None
    else if s[from..from + |pat|] == pat then Some(from)
    else IndexOfFrom(s, pat, from + 1)
  }

  /** `String.prototype.indexOf(pat)`. */
  function IndexOf(s: string, pat: string): (r: Option<nat>)
    ensures r.Some? ==> OccursAt(s, pat, r.value)
    ensures r.Some? ==> forall i :: 0 <= i < r.value ==> !OccursAt(s, pat, i)
    ensures r.None? ==> forall i :: 0 <= i ==> !OccursAt(s, pat, i)
  {
    IndexOfFrom(s, pat, 0)
  }

  /** `String.prototype.indexOf(c)` for one character. */
  function FirstIndexOf(s: string, c: char): (r: Option<nat>)
    ensures r.Some? ==> r.value < |s| && s[r.value] == c
    ensures r.Some? ==> c !in s[..r.value]
    ensures r.None? <==> c !in s
  {
    if s == [] then None
    else if s[0] == c then Some(0)
    else
      var r := FirstIndexOf(s[1..], c);
      assert s == [s[0]] + s[1..];
      if r.None? then None
      else
        assert s[..r.value + 1] == [s[0]] + s[1..][..r.value];
        Some(r.value + 1)
  }

  /** The first position holding `c` is the one `FirstIndexOf` finds. */
  lemma {:induction false} FirstIndexOfAt(s: string, c: char, i: nat)
    requires i < |s| && s[i] == c && c !in s[..i]
    ensures FirstIndexOf(s, c) == Some(i)
    decreases i
  {
    if i > 0 {
      assert s[0] == s[..i][0];
      assert s[1..][..i - 1] == s[1..i];
      assert forall k :: 0 <= k < i - 1 ==> s[1..i][k] == s[..i][k + 1];
      FirstIndexOfAt(s[1..], c, i - 1);
    }
  }

  /** `String.prototype.lastIndexOf(c)` for one character. */
  function LastIndexOf(s: string, c: char): (r: Option<nat>)
    ensures r.Some? ==> r.value < |s| && s[r.value] == c
    ensures r.Some? ==> forall i :: r.value < i < |s| ==> s[i] != c
    ensures r.None? <==> c !in s
  {
    if s == [] then None
    else if s[|s| - 1] == c then Some(|s| - 1)
    else
      var r := LastIndexOf(s[..|s| - 1], c);
      assert s == s[..|s| - 1] + [s[|s| - 1]];
      r
  }

  /** `String.prototype.replace(pat, rep)` with a string pattern: only the
      first occurrence is replaced. */
  function ReplaceFirst(s: string, pat: string, rep: string): string {
    match IndexOf(s, pat)
    case None => s
    case Some(i) => s[..i] + rep + s[i + |pat|..]
  }

  /** The first occurrence, when there is one, is the one replaced. */
  lemma ReplaceFirstAt(s: string, pat: string, rep: string, i: nat)
    requires OccursAt(s, pat, i)
    requires forall k :: 0 <= k < i ==> !OccursAt(s, pat, k)
    ensures ReplaceFirst(s, pat, rep) == s[..i] + rep + s[i + |pat|..]
  {
    var j := IndexOf(s, pat);
    assert j.Some? && j.value <= i;
    assert !(j.value < i);
  }

  /** Without an occurrence nothing changes. */
  lemma ReplaceFirstNone(s: string, pat: string, rep: string)
    requires forall k :: 0 <= k ==> !OccursAt(s, pat, k)
    ensures ReplaceFirst(s, pat, rep) == s
  {
    var j := IndexOf(s, pat);
    assert j.Some? ==> OccursAt(s, pat, j.value);
  }

  // ---------------------------------------------------------------------------
  // Ordering of strings (the default comparison of `Array.prototype.sort`)

  /** Lexicographic order on code points. */
  predicate Less(a: string, b: string)
    decreases |a|
  {
    |b| > 0 && (|a| == 0 || a[0] < b[0] || (a[0] == b[0] && Less(a[1..], b[1..])))
  }

  lemma {:induction false} LessIrreflexive(a: string)
    ensures !Less(a, a)
    decreases |a|
  {
    if |a| > 0 {
      LessIrreflexive(a[1..]);
    }
  }

  lemma {:induction false} LessTransitive(a: string, b: string, c: string)
    requires Less(a, b) && Less(b, c)
    ensures Less(a, c)
    decreases |a|
  {
    if |a| > 0 && a[0] == b[0] && b[0] == c[0] {
      LessTransitive(a[1..], b[1..], c[1..]);
    }
  }

  lemma {:induction false} LessTotal(a: string, b: string)
    ensures a == b || Less(a, b) || Less(b, a)
    decreases |a|
  {
    if |a| > 0 && |b| > 0 && a[0] == b[0] {
      LessTotal(a[1..], b[1..]);
      if a[1..] == b[1..] {
        assert a == [a[0]] + a[1..] && b == [b[0]] + b[1..];
      }
    }
  }

  predicate StrictlySorted(s: seq<string>) {
    forall i, j :: 0 <= i < j < |s| ==> Less(s[i], s[j])
  }

  /** Inserts `x` at its place in a strictly sorted sequence, unless present. */
  function Insert(x: string, s: seq<string>): (r: seq<string>)
    requires StrictlySorted(s)
    ensures StrictlySorted(r)
    ensures forall y :: y in r <==> y == x || y in s
  {
    if s == [] then [x]
    else if x == s[0] then s
    else if Less(x, s[0]) then
      assert forall j :: 0 <= j < |s| ==> Less(x, s[j]) by {
        forall j | 0 <= j < |s| ensures Less(x, s[j]) {
          if j > 0 {
            LessTransitive(x, s[0], s[j]);
          }
        }
      }
      [x] + s
    else
      LessTotal(x, s[0]);
      var rest := Insert(x, s[1..]);
      assert forall y :: y in rest ==> Less(s[0], y) by {
        forall y | y in rest ensures Less(s[0], y) {
          if y != x {
            var j :| 0 <= j < |s[1..]| && s[1..][j] == y;
            assert s[j + 1] == y;
          }
        }
      }
      assert forall j :: 0 <= j < |rest| ==> Less(s[0], rest[j]) by {
        forall j | 0 <= j < |rest| ensures Less(s[0], rest[j]) {
          assert rest[j] in rest;
        }
      }
      [s[0]] + rest
  }

  /** `Array.from(new Set(xs)).sort()`. */
  function SortDedup(xs: seq<string>): (r: seq<string>)
    ensures StrictlySorted(r)
    ensures forall y :: y in r <==> y in xs
  {
    if xs == [] then [] else Insert(xs[0], SortDedup(xs[1..]))
  }

  lemma StrictlySortedDistinct(s: seq<string>)
    requires StrictlySorted(s)
    ensures Distinct(s)
  {
    forall i, j | 0 <= i < j < |s| ensures s[i] != s[j] {
      LessIrreflexive(s[i]);
    }
  }

  /** A finite set of strings has exactly one strictly sorted enumeration, so
      `SortDedup` returns the same list whatever order its input came in. */
  lemma {:induction false} SortedUnique(a: seq<string>, b: seq<string>)
    requires StrictlySorted(a) && StrictlySorted(b)
    requires forall y :: y in a <==> y in b
    ensures a == b
    decreases |a|
  {
    if a == [] {
      forall y ensures multiset(b)[y] == 0 {
        assert y !in b;
      }
      assert multiset(b) == multiset{};
      assert |b| == |multiset(b)|;
    } else {
      assert b != [] by { assert a[0] in b; }
      assert a[0] in a && b[0] in b;
      if a[0] != b[0] {
        var k :| 0 <= k < |b| && b[k] == a[0];
        var m :| 0 <= m < |a| && a[m] == b[0];
        assert Less(b[0], a[0]);
        assert Less(a[0], b[0]);
        LessTransitive(a[0], b[0], a[0]);
        LessIrreflexive(a[0]);
      }
      forall y ensures y in a[1..] <==> y in b[1..] {
        if y in a[1..] {
          var i :| 0 <= i < |a[1..]| && a[1..][i] == y;
          assert Less(a[0], a[i + 1]);
          LessIrreflexive(y);
          assert y in b;
        }
        if y in b[1..] {
          var i :| 0 <= i < |b[1..]| && b[1..][i] == y;
          assert Less(b[0], b[i + 1]);
          LessIrreflexive(y);
          assert y in a;
        }
      }
      SortedUnique(a[1..], b[1..]);
      assert a == [a[0]] + a[1..] && b == [b[0]] + b[1..];
    }
  }

  // ---------------------------------------------------------------------------
  // Decimal rendering of counters (`${i}` in a template literal)

  function DigitChar(d: nat): (c: char)
    requires d < 10
    ensures IsDigit(c)
  {
    ('0' as int + d) as char
  }

  function Decimal(n: nat): (r: string)
    ensures 1 <= |r|
    ensures forall c :: c in r ==> IsDigit(c)
    ensures n < 10 <==> |r| == 1
  {
    if n < 10 then [DigitChar(n)] else Decimal(n / 10) + [DigitChar(n % 10)]
  }

  /** Different counters never print alike. */
  lemma {:induction false} DecimalInjective(a: nat, b: nat)
    requires Decimal(a) == Decimal(b)
    ensures a == b
    decreases a
  {
    if a >= 10 {
      var da, db := Decimal(a), Decimal(b);
      assert da[|da| - 1] == DigitChar(a % 10) && db[|db| - 1] == DigitChar(b % 10);
      assert da[..|da| - 1] == Decimal(a / 10);
      assert db[..|db| - 1] == Decimal(b / 10);
      DecimalInjective(a / 10, b / 10);
    }
  }
}
