/** The placeholder syntax `<<name>>` shared by the pipeline
    (`extractPlaceholders`) and the pill editor (`renderContent`): both scan
    the text left to right with the global regular expression `<<([^>]+)>>`.

    The regular expression is written out as a predicate. At position `i` it
    needs `<<`; the greedy `[^>]+` then runs up to the first `>` at or after
    `i + 2`, and no shorter run can be followed by `>>` because the character
    after it is not `>`. So it matches exactly when that first `>` is not
    right at `i + 2` and is itself followed by `>`. `RegexMatchIff` checks
    this reading against the declarative one. */
module Placeholders {
  import opened Chars
  import opened Strings

  /** The position of the first `>` at or after `k`, or `|t|` if there is
      none. */
  function CloseFrom(t: string, k: nat): (r: nat)
    requires k <= |t|
    ensures k <= r <= |t|
    ensures forall m :: k <= m < r ==> t[m] != '>'
    ensures r < |t| ==> t[r] == '>'
    decreases |t| - k
  {
    if k == |t| || t[k] == '>' then k else CloseFrom(t, k + 1)
  }

  /** `<<([^>]+)>>` matches at position `i`. */
  predicate MatchAt(t: string, i: nat) {
    i + 2 <= |t| && t[i] == '<' && t[i + 1] == '<'
    && var j := CloseFrom(t, i + 2);
       i + 2 < j && j + 1 < |t| && t[j + 1] == '>'
  }

  /** The captured name of the match at `i`. */
  function MatchName(t: string, i: nat): (r: string)
    requires MatchAt(t, i)
    ensures r != [] && '>' !in r
  {
    t[i + 2..CloseFrom(t, i + 2)]
  }

  /** Where the match at `i` ends: just after its closing `>>`. */
  function MatchEnd(t: string, i: nat): (r: nat)
    requires MatchAt(t, i)
    ensures i + 4 < r <= |t|
    ensures t[i..r] == "<<" + MatchName(t, i) + ">>"
  {
    var j := CloseFrom(t, i + 2);
    assert t[i..j + 2] == t[i..i + 2] + t[i + 2..j] + t[j..j + 2];
    j + 2
  }

  /** The regular expression read declaratively: `t[i..j+2]` is `<<`, a
      non-empty run without `>`, and `>>`. */
  predicate RegexMatch(t: string, i: nat, j: nat) {
    i + 2 < j && j + 2 <= |t| && t[i..i + 2] == "<<" && t[j..j + 2] == ">>"
    && forall m :: i + 2 <= m < j ==> t[m] != '>'
  }

  /** The scanning predicate agrees with the declarative regular expression,
      and the declarative match at `i`, when there is one, has one end. */
  lemma RegexMatchIff(t: string, i: nat, j: nat)
    ensures RegexMatch(t, i, j) <==> MatchAt(t, i) && j == CloseFrom(t, i + 2)
  {
    if RegexMatch(t, i, j) {
      assert t[i] == t[i..i + 2][0] && t[i + 1] == t[i..i + 2][1];
      assert t[j] == t[j..j + 2][0] && t[j + 1] == t[j..j + 2][1];
      assert CloseFrom(t, i + 2) == j;
    }
    if MatchAt(t, i) && j == CloseFrom(t, i + 2) {
      assert t[i..i + 2] == "<<";
      assert t[j..j + 2] == ">>";
    }
  }

  /** The first match at or after `from` (what `RegExp.prototype.exec` finds
      with `lastIndex == from`). */
  function NextMatch(t: string, from: nat): (r: Option<nat>)
    ensures r.Some? ==> from <= r.value && MatchAt(t, r.value)
    ensures r.Some? ==> forall k :: from <= k < r.value ==> !MatchAt(t, k)
    ensures r.None? ==> forall k :: from <= k ==> !MatchAt(t, k)
    decreases |t| - from
  {
    if from + 2 > |t| then None
    else if MatchAt(t, from) then Some(from)
    else NextMatch(t, from + 1)
  }

  /** A piece of scanned text: literal text, or one `<<name>>` occurrence. */
  datatype Token = Literal(text: string) | Placeholder(name: string)

  /** The text a token was scanned from. */
  function Source(tok: Token): string {
    match tok
    case Literal(s) => s
    case Placeholder(n) => "<<" + n + ">>"
  }

  function Unscan(toks: seq<Token>): string {
    if toks == [] then [] else Source(toks[0]) + Unscan(toks[1..])
  }

  /** The global scan: the literal text before the next match (if any), the
      match, then the scan of what follows the match. */
  function Scan(t: string): (r: seq<Token>)
    decreases |t|
  {
    match NextMatch(t, 0)
    case None => if t == [] then [] else [Literal(t)]
    case Some(i) =>
      (if i > 0 then [Literal(t[..i])] else [])
      + [Placeholder(MatchName(t, i))] + Scan(t[MatchEnd(t, i)..])
  }

  /** What the first token of a scan says about the text. */
  lemma ScanHead(t: string)
    ensures t == [] <==> Scan(t) == []
    ensures Scan(t) != [] && Scan(t)[0].Literal? ==>
              Scan(t)[0].text != [] && forall k :: 0 <= k < |Scan(t)[0].text| ==> !MatchAt(t, k)
    ensures Scan(t) != [] && Scan(t)[0].Placeholder? ==>
              MatchAt(t, 0) && Scan(t)[0].name == MatchName(t, 0)
  {
  }

  /** Concatenating the scanned tokens gives back the text. */
  lemma {:induction false} ScanRoundTrip(t: string)
    ensures Unscan(Scan(t)) == t
    decreases |t|
  {
    match NextMatch(t, 0)
    case None =>
    case Some(i) =>
      ScanRoundTrip(t[MatchEnd(t, i)..]);
      RoundTripStep(t, i);
  }

  /** One step of the round trip: the text up to the end of the first match,
      then the rest. */
  lemma RoundTripStep(t: string, i: nat)
    requires NextMatch(t, 0) == Some(i)
    requires Unscan(Scan(t[MatchEnd(t, i)..])) == t[MatchEnd(t, i)..]
    ensures Unscan(Scan(t)) == t
  {
    var e := MatchEnd(t, i);
    var n := MatchName(t, i);
    var rest := Scan(t[e..]);
    calc {
      Unscan(Scan(t));
      { ScanStep(t, i); }
      Unscan((if i > 0 then [Literal(t[..i])] else []) + [Placeholder(n)] + rest);
      { UnscanStep(t, i, e, n, rest); }
      t[..e] + Unscan(rest);
      t[..e] + t[e..];
      { assert t == t[..e] + t[e..]; }
      t;
    }
  }

  /** The tokens of one scan step give back the text up to the match end. */
  lemma UnscanStep(t: string, i: nat, e: nat, name: string, rest: seq<Token>)
    requires i <= e <= |t| && t[i..e] == "<<" + name + ">>"
    ensures Unscan((if i > 0 then [Literal(t[..i])] else []) + [Placeholder(name)] + rest)
            == t[..e] + Unscan(rest)
  {
    if i > 0 {
      UnscanLiteralStep(t, i, e, Placeholder(name), rest);
    } else {
      UnscanCons(Placeholder(name), rest);
      assert [] + [Placeholder(name)] + rest == [Placeholder(name)] + rest;
    }
  }

  lemma UnscanLiteralStep(t: string, i: nat, e: nat, p: Token, rest: seq<Token>)
    requires 0 < i <= e <= |t| && Source(p) == t[i..e]
    ensures Unscan([Literal(t[..i])] + [p] + rest) == t[..e] + Unscan(rest)
  {
    var tail := [p] + rest;
    assert [Literal(t[..i])] + [p] + rest == [Literal(t[..i])] + tail;
    UnscanCons(p, rest);
    UnscanAfterLiteral(t, i, e, tail);
    SplitAt(t, i, e);
  }

  lemma UnscanAfterLiteral(t: string, i: nat, e: nat, tail: seq<Token>)
    requires 0 < i <= e <= |t|
    ensures Unscan([Literal(t[..i])] + tail) == t[..i] + Unscan(tail)
  {
    UnscanCons(Literal(t[..i]), tail);
  }

  lemma SplitAt(t: string, i: nat, e: nat)
    requires i <= e <= |t|
    ensures t[..e] == t[..i] + t[i..e]
  {
  }

  lemma UnscanCons(tok: Token, rest: seq<Token>)
    ensures Unscan([tok] + rest) == Source(tok) + Unscan(rest)
  {
    assert ([tok] + rest)[1..] == rest;
  }

  lemma {:induction false} UnscanAppend(a: seq<Token>, b: seq<Token>)
    ensures Unscan(a + b) == Unscan(a) + Unscan(b)
  {
    if a != [] {
      assert (a + b)[1..] == a[1..] + b;
      UnscanAppend(a[1..], b);
    } else {
      assert a + b == b;
    }
  }

  /** Every placeholder name is the content of a match: non-empty and free of
      `>`; every literal is non-empty. */
  predicate WellFormedToken(tok: Token) {
    match tok
    case Literal(s) => s != []
    case Placeholder(n) => n != [] && '>' !in n
  }

  lemma {:induction false} ScanWellFormed(t: string)
    ensures forall k :: 0 <= k < |Scan(t)| ==> WellFormedToken(Scan(t)[k])
    decreases |t|
  {
    match NextMatch(t, 0)
    case None =>
    case Some(i) =>
      ScanWellFormed(t[MatchEnd(t, i)..]);
  }

  // ---------------------------------------------------------------------------
  // The converse round trip: scanning a rendered token sequence

  /** A literal that cannot take part in a match once a placeholder follows
      it: it holds no `<<` and does not end with `<`. */
  predicate InertLiteral(s: string) {
    s != [] && s[|s| - 1] != '<' && forall k :: 0 <= k < |s| - 1 ==> !(s[k] == '<' && s[k + 1] == '<')
  }

  /** The token sequences a scan can produce, restricted to inert literals:
      names are non-empty and free of `>`, and a literal is never followed
      by another literal. */
  predicate Scannable(toks: seq<Token>)
    decreases |toks|
  {
    toks == []
    || (toks[0].Placeholder? && toks[0].name != [] && '>' !in toks[0].name && Scannable(toks[1..]))
    || (toks[0].Literal? && InertLiteral(toks[0].text)
        && (|toks| == 1 || (toks[1].Placeholder? && Scannable(toks[1..]))))
  }

  /** A placeholder at the front is matched there, and the match ends after
      its `>>`. */
  lemma PlaceholderMatch(n: string, rest: string)
    requires n != [] && '>' !in n
    ensures MatchAt("<<" + n + ">>" + rest, 0)
    ensures MatchName("<<" + n + ">>" + rest, 0) == n
    ensures MatchEnd("<<" + n + ">>" + rest, 0) == |n| + 4
  {
    var t := "<<" + n + ">>" + rest;
    assert forall m :: 2 <= m < |n| + 2 ==> t[m] == n[m - 2];
    assert t[|n| + 2] == '>' && t[|n| + 3] == '>';
    assert CloseFrom(t, 2) == |n| + 2;
    assert t[2..|n| + 2] == n;
  }

  /** No match starts inside an inert literal followed by a placeholder or
      by nothing. */
  lemma InertNoMatch(s: string, rest: string, k: nat)
    requires InertLiteral(s) && k < |s|
    requires rest == [] || rest[0] == '<'
    ensures !MatchAt(s + rest, k)
  {
    var t := s + rest;
    if k + 1 < |s| {
      assert t[k] == s[k] && t[k + 1] == s[k + 1];
    } else {
      assert t[k] == s[k];
    }
  }

  /** The first match at or after `from` is the one at `i` when nothing
      matches before it. */
  lemma FirstMatch(t: string, from: nat, i: nat)
    requires from <= i && MatchAt(t, i)
    requires forall k :: from <= k < i ==> !MatchAt(t, k)
    ensures NextMatch(t, from) == Some(i)
  {
  }

  /** One step of the scan when the first match is at `i`. */
  lemma ScanStep(t: string, i: nat)
    requires NextMatch(t, 0) == Some(i)
    ensures Scan(t) == (if i > 0 then [Literal(t[..i])] else [])
                       + [Placeholder(MatchName(t, i))] + Scan(t[MatchEnd(t, i)..])
  {
  }

  /** Scanning a text that starts with a placeholder. */
  lemma ScanPlaceholderFront(n: string, rest: string)
    requires n != [] && '>' !in n
    ensures Scan("<<" + n + ">>" + rest) == [Placeholder(n)] + Scan(rest)
  {
    var t := "<<" + n + ">>" + rest;
    PlaceholderMatch(n, rest);
    FirstMatch(t, 0, 0);
    ScanStep(t, 0);
    assert t[|n| + 4..] == rest;
  }

  /** No match starts inside an inert literal that is followed by a
      placeholder or by nothing. */
  lemma InertPrefix(s: string, rest: string)
    requires InertLiteral(s)
    requires rest == [] || rest[0] == '<'
    ensures forall k :: 0 <= k < |s| ==> !MatchAt(s + rest, k)
  {
    forall k | 0 <= k < |s| ensures !MatchAt(s + rest, k) {
      InertNoMatch(s, rest, k);
    }
  }

  /** Scanning an inert literal followed by nothing. */
  lemma ScanLiteralAlone(s: string)
    requires InertLiteral(s)
    ensures Scan(s) == [Literal(s)]
  {
    InertPrefix(s, []);
    assert s + [] == s;
    NoMatchAfter(s, |s|);
    assert NextMatch(s, 0) == None;
  }

  /** Scanning an inert literal followed by a placeholder. */
  lemma ScanLiteralFront(s: string, n: string, after: string)
    requires InertLiteral(s) && n != [] && '>' !in n
    ensures Scan(s + ("<<" + n + ">>" + after)) == [Literal(s), Placeholder(n)] + Scan(after)
  {
    var t := s + ("<<" + n + ">>" + after);
    LiteralFrontMatch(s, n, after);
    assert t[..|s|] == s;
    assert t[|s| + |n| + 4..] == after;
    ScanLiteralThenMatch(t, |s|, s, n, after);
  }

  /** A scan whose first match is preceded by literal text. */
  lemma ScanLiteralThenMatch(t: string, i: nat, lit: string, name: string, rest: string)
    requires NextMatch(t, 0) == Some(i) && i > 0
    requires t[..i] == lit && MatchName(t, i) == name && t[MatchEnd(t, i)..] == rest
    ensures Scan(t) == [Literal(lit), Placeholder(name)] + Scan(rest)
  {
    ScanStep(t, i);
  }

  /** After an inert literal, the first match is the placeholder that
      follows it. */
  lemma LiteralFrontMatch(s: string, n: string, after: string)
    requires InertLiteral(s) && n != [] && '>' !in n
    ensures var t := s + ("<<" + n + ">>" + after);
            && NextMatch(t, 0) == Some(|s|)
            && MatchName(t, |s|) == n
            && MatchEnd(t, |s|) == |s| + |n| + 4
  {
    var rest := "<<" + n + ">>" + after;
    var t := s + rest;
    PlaceholderMatch(n, after);
    InertPrefix(s, rest);
    ShiftedMatch(s, rest);
    FirstMatch(t, 0, |s|);
  }

  lemma {:induction false} ScanUnscan(toks: seq<Token>)
    requires Scannable(toks)
    ensures Scan(Unscan(toks)) == toks
    decreases |toks|
  {
    if toks != [] {
      if toks[0].Placeholder? {
        calc {
          Scan(Unscan(toks));
          { ScanUnscanPlaceholder(toks); }
          [toks[0]] + Scan(Unscan(toks[1..]));
          { ScanUnscan(toks[1..]); }
          [toks[0]] + toks[1..];
          toks;
        }
      } else if |toks| == 1 {
        ScanUnscanLast(toks);
      } else {
        calc {
          Scan(Unscan(toks));
          { ScanUnscanLiteral(toks); }
          [toks[0], toks[1]] + Scan(Unscan(toks[2..]));
          { ScanUnscanLiteral(toks); ScanUnscan(toks[2..]); }
          [toks[0], toks[1]] + toks[2..];
          toks;
        }
      }
    }
  }

  lemma ScanUnscanPlaceholder(toks: seq<Token>)
    requires toks != [] && toks[0].Placeholder? && Scannable(toks)
    ensures Scan(Unscan(toks)) == [toks[0]] + Scan(Unscan(toks[1..]))
  {
    ScanPlaceholderFront(toks[0].name, Unscan(toks[1..]));
  }

  lemma ScanUnscanLast(toks: seq<Token>)
    requires |toks| == 1 && toks[0].Literal? && Scannable(toks)
    ensures Scan(Unscan(toks)) == toks
  {
    assert toks == [Literal(toks[0].text)] + [];
    UnscanCons(toks[0], []);
    assert toks[0].text + [] == toks[0].text;
    ScanLiteralAlone(toks[0].text);
  }

  lemma ScanUnscanLiteral(toks: seq<Token>)
    requires |toks| > 1 && toks[0].Literal? && Scannable(toks)
    ensures Scannable(toks[2..])
    ensures Scan(Unscan(toks)) == [toks[0], toks[1]] + Scan(Unscan(toks[2..]))
  {
    var n := toks[1].name;
    var after := Unscan(toks[2..]);
    assert toks[1..][1..] == toks[2..];
    assert Unscan(toks[1..]) == "<<" + n + ">>" + after;
    ScanLiteralFront(toks[0].text, n, after);
  }

  /** A match needs two characters. */
  lemma NoMatchAfter(t: string, from: nat)
    requires from >= |t|
    ensures forall k :: from <= k ==> !MatchAt(t, k)
  {
  }

  /** A match at the front of `rest` is a match of `s + rest` at `|s|`, with
      the same name and the corresponding end. */
  lemma ShiftedMatch(s: string, rest: string)
    requires MatchAt(rest, 0)
    ensures MatchAt(s + rest, |s|)
    ensures MatchName(s + rest, |s|) == MatchName(rest, 0)
    ensures MatchEnd(s + rest, |s|) == |s| + MatchEnd(rest, 0)
  {
    var t := s + rest;
    ShiftedClose(s, rest, 2);
    assert t[|s|] == rest[0] && t[|s| + 1] == rest[1];
    var j := CloseFrom(rest, 2);
    assert t[|s| + j + 1] == rest[j + 1];
    assert t[|s| + 2..|s| + j] == rest[2..j];
  }

  lemma {:induction false} ShiftedClose(s: string, rest: string, k: nat)
    requires k <= |rest|
    ensures CloseFrom(s + rest, |s| + k) == |s| + CloseFrom(rest, k)
    decreases |rest| - k
  {
    var t := s + rest;
    if k < |rest| {
      assert t[|s| + k] == rest[k];
      if rest[k] != '>' {
        ShiftedClose(s, rest, k + 1);
      }
    }
  }

  // ---------------------------------------------------------------------------
  // extractPlaceholders

  /** The names of the placeholder tokens, in order. */
  function Names(toks: seq<Token>): (r: seq<string>)
    ensures forall x :: x in r <==> exists k :: 0 <= k < |toks| && toks[k] == Placeholder(x)
  {
    if toks == [] then []
    else
      var rest := Names(toks[1..]);
      assert forall k :: 1 <= k < |toks| ==> toks[k] == toks[1..][k - 1];
      if toks[0].Placeholder? then [toks[0].name] + rest else rest
  }

  /** The names of a concatenation are the names of each part, in order. */
  lemma {:induction false} NamesAppend(a: seq<Token>, b: seq<Token>)
    ensures Names(a + b) == Names(a) + Names(b)
    decreases |a|
  {
    if a != [] {
      assert (a + b)[0] == a[0];
      assert forall k :: 0 <= k < |a[1..] + b| ==> (a + b)[1..][k] == (a[1..] + b)[k];
      assert (a + b)[1..] == a[1..] + b;
      NamesAppend(a[1..], b);
    } else {
      assert a + b == b;
    }
  }

  /** A placeholder token contributes its name, a literal nothing. */
  lemma NamesOne(tok: Token)
    ensures Names([tok]) == if tok.Placeholder? then [tok.name] else []
  {
    assert [tok][1..] == [];
  }

  /** `extractPlaceholders`: the distinct captured names, in order of first
      occurrence. */
  function ExtractPlaceholders(t: string): (r: seq<string>)
    ensures Distinct(r)
    ensures forall x :: x in r <==> x in Names(Scan(t))
    ensures InFirstUseOrder(r, Names(Scan(t)))
  {
    DedupOrder(Names(Scan(t)));
    Dedup(Names(Scan(t)))
  }

  /** Each extracted name is the content of a match, so it is non-empty and
      holds no `>`; and a text with no `<<` has no placeholders. */
  lemma ExtractedNamesWellFormed(t: string)
    ensures forall x :: x in ExtractPlaceholders(t) ==> x != [] && '>' !in x
  {
    ScanWellFormed(t);
    forall x | x in ExtractPlaceholders(t) ensures x != [] && '>' !in x {
      var k :| 0 <= k < |Scan(t)| && Scan(t)[k] == Placeholder(x);
      assert WellFormedToken(Scan(t)[k]);
    }
  }

  /** Extracting from a rendered token sequence gives its distinct names. */
  lemma ExtractOfUnscan(toks: seq<Token>)
    requires Scannable(toks)
    ensures ExtractPlaceholders(Unscan(toks)) == Dedup(Names(toks))
  {
    ScanUnscan(toks);
  }
}
