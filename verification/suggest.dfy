/** Draft templates for the categories a sheet lacks
    (`suggestMissingTemplates`, `genShortDesc`, `translateDesc`), and the
    metadata block of the exported catalog, from assets/admin-excel.js. */
module Suggest {
  import opened Strings
  import opened Sanitize
  import opened Placeholders
  import opened Variables
  import opened Header
  import opened Builder
  import opened Objects

  // ---------------------------------------------------------------------------
  // genShortDesc and translateDesc (assets/admin-excel.js:345-353)

  const GenericDescription: string :=
    "Mod\U{E8}le de courriel pr\U{EA}t \U{E0} l\U{2019}envoi pour un usage courant."

  /** The French phrase `translateDesc` replaces, and its replacement. */
  const FrPhrase: string := "Courriel pr\U{EA}t \U{E0} l\U{2019}emploi concernant"
  const EnPhrase: string := "Ready-to-send email regarding"

  /** French guillemets and the English curly quotes that replace them. */
  const OpenGuillemet: char := '\U{AB}'
  const CloseGuillemet: char := '\U{BB}'
  const OpenQuote: char := '\U{201C}'
  const CloseQuote: char := '\U{201D}'

  /** A seed between a phrase and a pair of quotes: `phrase « seed ».` */
  function Quoted(phrase: string, open: char, base: string, close: char): string {
    phrase + QuoteTail(open, base, close)
  }

  function QuoteTail(open: char, base: string, close: char): string {
    [' ', open, ' '] + base + [' ', close, '.']
  }

  /** A one-line French description about `seed`, or a generic one when the
      seed is blank. */
  function GenShortDesc(seed: string): (r: string)
    ensures Trim(seed) == [] ==> r == GenericDescription
    ensures Trim(seed) != [] ==> StartsWith(r, FrPhrase) && |r| == |FrPhrase| + |Trim(seed)| + 6
    ensures Trim(seed) != [] ==>
              && r[|FrPhrase|] == ' ' && r[|FrPhrase| + 1] == OpenGuillemet && r[|FrPhrase| + 2] == ' '
              && r[|FrPhrase| + 3..|r| - 3] == Trim(seed) && r[|r| - 3] == ' '
              && r[|r| - 2] == CloseGuillemet && r[|r| - 1] == '.'
  {
    var base := Trim(seed);
    if base == [] then GenericDescription
    else
      QuotedParts(FrPhrase, OpenGuillemet, base, CloseGuillemet);
      Quoted(FrPhrase, OpenGuillemet, base, CloseGuillemet)
  }

  /** Where the parts of a quoted seed sit. */
  lemma QuotedParts(phrase: string, open: char, base: string, close: char)
    ensures var r := Quoted(phrase, open, base, close);
            && |r| == |phrase| + |base| + 6 && r[..|phrase|] == phrase
            && r[|phrase|] == ' ' && r[|phrase| + 1] == open && r[|phrase| + 2] == ' '
            && r[|phrase| + 3..|r| - 3] == base && r[|r| - 3] == ' '
            && r[|r| - 2] == close && r[|r| - 1] == '.'
  {
    var r := Quoted(phrase, open, base, close);
    assert r == phrase + [' ', open, ' '] + base + [' ', close, '.'];
    assert r[..|phrase|] == phrase;
    assert r[|phrase| + 3..|r| - 3] == base;
  }

  /** The first occurrence of the phrase and of each guillemet replaced:
      the phrase by its English version, `«` and `»` by curly quotes. A text
      with neither the phrase nor a guillemet is left as it is. */
  function TranslateDesc(fr: string): (r: string)
    ensures IndexOf(fr, FrPhrase).None? && OpenGuillemet !in fr && CloseGuillemet !in fr ==> r == fr
  {
    var r := ReplaceFirst(ReplaceFirst(ReplaceFirst(fr, FrPhrase, EnPhrase), [OpenGuillemet], [OpenQuote]),
                          [CloseGuillemet], [CloseQuote]);
    if IndexOf(fr, FrPhrase).None? && OpenGuillemet !in fr && CloseGuillemet !in fr then
      NoCharNoOccurrence(fr, OpenGuillemet);
      NoCharNoOccurrence(fr, CloseGuillemet);
      r
    else r
  }

  /** A character absent from a text never occurs in it as a
      one-character pattern. */
  lemma NoCharNoOccurrence(s: string, c: char)
    requires c !in s
    ensures forall k :: 0 <= k ==> !OccursAt(s, [c], k)
  {
    forall k | 0 <= k ensures !OccursAt(s, [c], k) {
      if k + 1 <= |s| {
        assert s[k..k + 1][0] == s[k];
      }
    }
  }

  /** `ReplaceFirst` with a one-character pattern whose first occurrence is
      known. */
  lemma ReplaceFirstChar(a: string, c: char, b: string, rep: string)
    requires c !in a
    ensures ReplaceFirst(a + [c] + b, [c], rep) == a + rep + b
  {
    var s := a + [c] + b;
    assert s[|a|..|a| + 1] == [c];
    assert OccursAt(s, [c], |a|);
    forall k | 0 <= k < |a| ensures !OccursAt(s, [c], k) {
      assert s[k] == a[k];
      assert a[k] in a;
    }
    ReplaceFirstAt(s, [c], rep, |a|);
    assert s[..|a|] == a && s[|a| + 1..] == b;
  }

  /** `ReplaceFirst` with a pattern the text starts with. */
  lemma ReplaceFirstFront(pat: string, b: string, rep: string)
    ensures ReplaceFirst(pat + b, pat, rep) == rep + b
  {
    var s := pat + b;
    assert s[0..|pat|] == pat;
    assert OccursAt(s, pat, 0);
    ReplaceFirstAt(s, pat, rep, 0);
    assert s[|pat|..] == b;
  }

  /** Replacing after a prefix that lacks the pattern's first character
      leaves the prefix alone. */
  lemma ReplaceAfter(p: string, x: string, pat: string, rep: string)
    requires pat != [] && pat[0] !in p
    ensures ReplaceFirst(p + x, pat, rep) == p + ReplaceFirst(x, pat, rep)
  {
    match IndexOf(x, pat)
    case Some(j) => ReplaceAfterFound(p, x, pat, rep, j);
    case None => ReplaceAfterAbsent(p, x, pat, rep);
  }

  lemma OccursShift(p: string, x: string, pat: string, j: int)
    requires 0 <= j
    ensures OccursAt(p + x, pat, |p| + j) == OccursAt(x, pat, j)
  {
    if j + |pat| <= |x| {
      assert (p + x)[|p| + j..|p| + j + |pat|] == x[j..j + |pat|];
    }
  }

  lemma OccursNotInPrefix(p: string, x: string, pat: string)
    requires pat != [] && pat[0] !in p
    ensures forall k :: 0 <= k < |p| ==> !OccursAt(p + x, pat, k)
  {
    forall k | 0 <= k < |p| ensures !OccursAt(p + x, pat, k) {
      assert p[k] in p;
      if k + |pat| <= |p + x| { assert (p + x)[k..k + |pat|][0] == p[k]; }
    }
  }

  lemma ReplaceAfterAbsent(p: string, x: string, pat: string, rep: string)
    requires pat != [] && pat[0] !in p
    requires IndexOf(x, pat).None?
    ensures ReplaceFirst(p + x, pat, rep) == p + ReplaceFirst(x, pat, rep)
  {
    OccursNotInPrefix(p, x, pat);
    forall i | |p| <= i ensures !OccursAt(p + x, pat, i) {
      OccursShift(p, x, pat, i - |p|);
    }
    ReplaceFirstNone(p + x, pat, rep);
  }

  lemma ReplaceAfterFound(p: string, x: string, pat: string, rep: string, j: nat)
    requires pat != [] && pat[0] !in p
    requires IndexOf(x, pat) == Some(j)
    ensures ReplaceFirst(p + x, pat, rep) == p + ReplaceFirst(x, pat, rep)
  {
    var s := p + x;
    var i := |p| + j;
    calc {
      ReplaceFirst(s, pat, rep);
      { FirstAfterPrefix(p, x, pat, j); ReplaceFirstAt(s, pat, rep, i); }
      s[..i] + rep + s[i + |pat|..];
      { assert s[..i] == p + x[..j]; assert s[i + |pat|..] == x[j + |pat|..]; }
      (p + x[..j]) + rep + x[j + |pat|..];
      p + (x[..j] + rep + x[j + |pat|..]);
      p + ReplaceFirst(x, pat, rep);
    }
  }

  /** The first occurrence in `x` is the first in `p + x` when `p` cannot
      hold the start of one. */
  lemma FirstAfterPrefix(p: string, x: string, pat: string, j: nat)
    requires pat != [] && pat[0] !in p
    requires IndexOf(x, pat) == Some(j)
    ensures OccursAt(p + x, pat, |p| + j)
    ensures forall k :: 0 <= k < |p| + j ==> !OccursAt(p + x, pat, k)
  {
    OccursNotInPrefix(p, x, pat);
    OccursShift(p, x, pat, j);
    forall k | |p| <= k < |p| + j ensures !OccursAt(p + x, pat, k) {
      OccursShift(p, x, pat, k - |p|);
    }
  }

  /** The three replacements applied to a quoted seed swap the phrase and
      both quotes, as long as the seed holds no closing quote and the new
      phrase holds neither quote. */
  lemma ReplaceQuoted(fp: string, ep: string, base: string, o: char, c: char, o2: char, c2: char)
    requires o !in ep && o != ' '
    requires c !in ep && c != ' ' && c != o2 && c !in base
    ensures ReplaceFirst(ReplaceFirst(ReplaceFirst(Quoted(fp, o, base, c), fp, ep), [o], [o2]), [c], [c2])
         == Quoted(ep, o2, base, c2)
  {
    ReplaceFirstFront(fp, QuoteTail(o, base, c), ep);
    ReplaceAfter(ep, QuoteTail(o, base, c), [o], [o2]);
    ReplaceOpen(o, base, c, o2);
    ReplaceAfter(ep, QuoteTail(o2, base, c), [c], [c2]);
    ReplaceClose(o2, base, c, c2);
  }

  lemma ReplaceOpen(o: char, base: string, c: char, o2: char)
    requires o != ' '
    ensures ReplaceFirst(QuoteTail(o, base, c), [o], [o2]) == QuoteTail(o2, base, c)
  {
    var rest := [' '] + base + [' ', c, '.'];
    assert QuoteTail(o, base, c) == [' '] + [o] + rest;
    ReplaceFirstChar([' '], o, rest, [o2]);
    assert [' '] + [o2] + rest == QuoteTail(o2, base, c);
  }

  lemma ReplaceClose(o2: char, base: string, c: char, c2: char)
    requires c != ' ' && c != o2 && c !in base
    ensures ReplaceFirst(QuoteTail(o2, base, c), [c], [c2]) == QuoteTail(o2, base, c2)
  {
    var pre := [' ', o2, ' '] + base + [' '];
    assert QuoteTail(o2, base, c) == pre + [c] + ['.'];
    assert c !in pre by {
      forall k | 0 <= k < |pre| ensures pre[k] != c {
        if 3 <= k < 3 + |base| { assert pre[k] == base[k - 3]; }
      }
    }
    ReplaceFirstChar(pre, c, ['.'], [c2]);
    assert pre + [c2] + ['.'] == QuoteTail(o2, base, c2);
  }

  lemma EnPhraseHasNoGuillemets()
    ensures OpenGuillemet !in EnPhrase && CloseGuillemet !in EnPhrase
  {
  }

  /** The translation of a generated description: the English phrase and
      curly quotes around the same seed, provided the seed holds no `»`
      (else the closing guillemet would not be the first one). */
  lemma TranslateGenerated(seed: string)
    requires Trim(seed) != [] && CloseGuillemet !in Trim(seed)
    ensures TranslateDesc(GenShortDesc(seed)) == Quoted(EnPhrase, OpenQuote, Trim(seed), CloseQuote)
  {
    EnPhraseHasNoGuillemets();
    ReplaceQuoted(FrPhrase, EnPhrase, Trim(seed), OpenGuillemet, CloseGuillemet, OpenQuote, CloseQuote);
  }

  // ---------------------------------------------------------------------------
  // suggestMissingTemplates (assets/admin-excel.js:377-404)

  datatype Texts = Texts(title: string, subject: string, body: string)
  datatype Starter = Starter(category: string, fr: Texts, en: Texts)

  /** The built-in catalog of draft templates. */
  const Starters: seq<Starter> := [
    Starter("Suivi",
      Texts("Rappel \U{2013} Information manquante",
            "Rappel concernant <<NumeroProjet>>",
            "Bonjour,\n\nNous attendons toujours les informations manquantes pour <<NumeroProjet>>.\nMerci de nous les fournir d\U{2019}ici le <<NouvelleDate>>.\n\nCordialement,"),
      Texts("Reminder \U{2013} Missing information",
            "Reminder about <<ProjectNumber>>",
            "Hello,\n\nWe still need the missing information for <<ProjectNumber>>.\nPlease provide it by <<NewDate>>.\n\nRegards,")),
    Starter("Facturation",
      Texts("Facture \U{2013} Envoi de copie",
            "Facture #<<NumeroProjet>>",
            "Bonjour,\n\nVeuillez trouver ci-joint une copie de la facture pour <<NumeroProjet>> (montant: <<Montant>>).\n\nCordialement,"),
      Texts("Invoice \U{2013} Copy sent",
            "Invoice #<<ProjectNumber>>",
            "Hello,\n\nPlease find attached a copy of the invoice for <<ProjectNumber>> (amount: <<Amount>>).\n\nRegards,")),
    Starter("Planification",
      Texts("Confirmation \U{2013} Nouvelle date",
            "Nouvelle date pour <<NumeroProjet>>",
            "Bonjour,\n\nLa nouvelle date propos\U{E9}e pour <<NumeroProjet>> est le <<NouvelleDate>>.\nMerci de confirmer la r\U{E9}ception.\n\nCordialement,"),
      Texts("Confirmation \U{2013} New date",
            "New date for <<ProjectNumber>>",
            "Hello,\n\nThe proposed new date for <<ProjectNumber>> is <<NewDate>>.\nPlease confirm receipt.\n\nRegards,"))]

  datatype Draft = Draft(
    suggestion: bool, id: string, category: string, title: Bilingual, description: Bilingual,
    subject: Bilingual, body: Bilingual, variables: seq<string>)

  /** The starters, in order, whose category is neither present nor already
      chosen. */
  function Choose(items: seq<Starter>, present: set<string>, seen: set<string>): seq<Starter> {
    if items == [] then []
    else if items[0].category !in present && items[0].category !in seen then
      [items[0]] + Choose(items[1..], present, seen + {items[0].category})
    else
      Choose(items[1..], present, seen)
  }

  /** A chosen starter comes from the list and has a new category. */
  lemma {:induction false} ChooseFrom(items: seq<Starter>, present: set<string>, seen: set<string>)
    ensures |Choose(items, present, seen)| <= |items|
    ensures forall i :: 0 <= i < |Choose(items, present, seen)| ==>
              var c := Choose(items, present, seen)[i];
              c in items && c.category !in present && c.category !in seen
  {
    if items != [] {
      var it := items[0];
      var tail := items[1..];
      if it.category !in present && it.category !in seen {
        ChooseFrom(tail, present, seen + {it.category});
        var rest := Choose(tail, present, seen + {it.category});
        var r := [it] + rest;
        forall i | 0 <= i < |r| ensures r[i] in items && r[i].category !in present && r[i].category !in seen {
          if i > 0 { assert r[i] == rest[i - 1]; assert rest[i - 1] in tail; }
        }
      } else {
        ChooseFrom(tail, present, seen);
        var r := Choose(tail, present, seen);
        forall i | 0 <= i < |r| ensures r[i] in items {
          assert r[i] in tail;
        }
      }
    }
  }

  /** No two chosen starters share a category. */
  lemma {:induction false} ChooseDistinct(items: seq<Starter>, present: set<string>, seen: set<string>)
    ensures forall i, j :: 0 <= i < j < |Choose(items, present, seen)| ==>
              Choose(items, present, seen)[i].category != Choose(items, present, seen)[j].category
  {
    if items != [] {
      var it := items[0];
      var tail := items[1..];
      if it.category !in present && it.category !in seen {
        var seen' := seen + {it.category};
        ChooseDistinct(tail, present, seen');
        ChooseFrom(tail, present, seen');
        var rest := Choose(tail, present, seen');
        var r := [it] + rest;
        assert Choose(items, present, seen) == r;
        forall i, j | 0 <= i < j < |r| ensures r[i].category != r[j].category {
          assert r[j] == rest[j - 1];
          assert rest[j - 1].category !in seen';
          if i > 0 {
            assert r[i] == rest[i - 1];
          } else {
            assert r[i] == it && it.category in seen';
          }
        }
      } else {
        ChooseDistinct(tail, present, seen);
        assert Choose(items, present, seen) == Choose(tail, present, seen);
      }
    }
  }

  /** Every starter with a new category has one of its category chosen. */
  lemma {:induction false} ChooseCovers(items: seq<Starter>, present: set<string>, seen: set<string>)
    ensures forall it :: it in items && it.category !in present && it.category !in seen ==>
              exists i :: 0 <= i < |Choose(items, present, seen)| && Choose(items, present, seen)[i].category == it.category
  {
    if items != [] {
      var it := items[0];
      var tail := items[1..];
      if it.category !in present && it.category !in seen {
        var seen' := seen + {it.category};
        ChooseCovers(tail, present, seen');
        var rest := Choose(tail, present, seen');
        var r := [it] + rest;
        assert Choose(items, present, seen) == r;
        forall x | x in items && x.category !in present && x.category !in seen
          ensures exists i :: 0 <= i < |r| && r[i].category == x.category
        {
          if x.category == it.category {
            assert r[0].category == x.category;
          } else {
            assert x in tail by { assert x == items[0] || x in tail; }
            var i :| 0 <= i < |rest| && rest[i].category == x.category;
            assert r[i + 1] == rest[i];
          }
        }
      } else {
        ChooseCovers(tail, present, seen);
        assert Choose(items, present, seen) == Choose(tail, present, seen);
        forall x | x in items && x.category !in present && x.category !in seen
          ensures x in tail
        {
          assert x == items[0] || x in tail;
        }
      }
    }
  }

  /** The variables of a subject and body: `canonicalVar` of each placeholder,
      subject first, without repetition. Unlike the template variables, an
      empty canonical name is not dropped. */
  function DraftVars(t: Texts): (r: seq<string>)
    ensures Distinct(r)
    ensures forall v :: v in r <==> v in CanonicalNames(ExtractPlaceholders(t.subject) + ExtractPlaceholders(t.body))
    ensures InFirstUseOrder(r, CanonicalNames(ExtractPlaceholders(t.subject) + ExtractPlaceholders(t.body)))
  {
    DedupOrder(CanonicalNames(ExtractPlaceholders(t.subject) + ExtractPlaceholders(t.body)));
    Dedup(CanonicalNames(ExtractPlaceholders(t.subject) + ExtractPlaceholders(t.body)))
  }

  /** `uniqueId(idSanitize(title) || 'suggestion', new Set())`. */
  function DraftId(title: string): string {
    var base := IdSanitize(title);
    UniqueId(if base != [] then base else "suggestion", {})
  }

  /** The draft of one starter: a suggestion in the starter's category
      carrying its titles, subjects and bodies. */
  function MakeDraft(s: Starter): (r: Draft)
    ensures r.suggestion && r.category == s.category
    ensures r.title == Bilingual(s.fr.title, s.en.title)
    ensures r.subject == Bilingual(s.fr.subject, s.en.subject) && r.body == Bilingual(s.fr.body, s.en.body)
  {
    var desc := GenShortDesc(s.fr.title);
    Draft(true, DraftId(s.fr.title), s.category, Bilingual(s.fr.title, s.en.title),
          Bilingual(desc, TranslateDesc(desc)), Bilingual(s.fr.subject, s.en.subject),
          Bilingual(s.fr.body, s.en.body), Union(DraftVars(s.fr), DraftVars(s.en)))
  }

  /** The categories the given templates use. */
  function Present(existing: seq<Template>): set<string> {
    set t | t in existing :: t.category
  }

  /** `xs` is `ys` with some elements left out and the rest kept in order. */
  predicate Subsequence<T(==)>(xs: seq<T>, ys: seq<T>)
    decreases |ys|
  {
    if xs == [] then true
    else if ys == [] then false
    else (xs[0] == ys[0] && Subsequence(xs[1..], ys[1..])) || Subsequence(xs, ys[1..])
  }

  /** The chosen starters keep the order of the list. */
  lemma {:induction false} ChooseSubsequence(items: seq<Starter>, present: set<string>, seen: set<string>)
    ensures Subsequence(Choose(items, present, seen), items)
  {
    if items != [] {
      var it := items[0];
      if it.category !in present && it.category !in seen {
        ChooseSubsequence(items[1..], present, seen + {it.category});
        assert Choose(items, present, seen) == [it] + Choose(items[1..], present, seen + {it.category});
      } else {
        ChooseSubsequence(items[1..], present, seen);
        var c := Choose(items[1..], present, seen);
        assert Choose(items, present, seen) == c;
        if c != [] {
          assert Subsequence(c, items);
        }
      }
    }
  }

  /** The starters whose category the templates do not use, first of each
      category. */
  function Chosen(existing: seq<Template>): seq<Starter> {
    Choose(Starters, Present(existing), {})
  }

  /** One draft for each starter category the templates do not use. */
  function SuggestMissing(existing: seq<Template>): (r: seq<Draft>)
    ensures |r| <= |Starters|
    ensures forall i :: 0 <= i < |r| ==> r[i].suggestion && r[i].category !in Present(existing)
    ensures forall i, j :: 0 <= i < j < |r| ==> r[i].category != r[j].category
    ensures forall s :: s in Starters && s.category !in Present(existing) ==>
              exists i :: 0 <= i < |r| && r[i].category == s.category
  {
    var chosen := Chosen(existing);
    ChooseFrom(Starters, Present(existing), {});
    ChooseDistinct(Starters, Present(existing), {});
    ChooseCovers(Starters, Present(existing), {});
    Drafts(chosen)
  }

  /** Each suggested draft is made from its own starter, and the drafts
      follow the order of the starters. */
  lemma SuggestMissingFromStarters(existing: seq<Template>)
    ensures Subsequence(Chosen(existing), Starters)
    ensures |SuggestMissing(existing)| == |Chosen(existing)|
    ensures forall i :: 0 <= i < |Chosen(existing)| ==>
              Chosen(existing)[i] in Starters && SuggestMissing(existing)[i] == MakeDraft(Chosen(existing)[i])
  {
    ChooseSubsequence(Starters, Present(existing), {});
    ChooseFrom(Starters, Present(existing), {});
  }

  /** A draft per starter, in order. */
  function Drafts(items: seq<Starter>): (r: seq<Draft>)
    ensures |r| == |items|
    ensures forall i :: 0 <= i < |r| ==> r[i] == MakeDraft(items[i])
  {
    seq(|items|, i requires 0 <= i < |items| => MakeDraft(items[i]))
  }

  /** Each draft: its id is the sanitised French title (never suffixed,
      since nothing counts as taken), its English description is the
      translation of the French one, and its variables are the French ones
      followed by the English ones the French list lacks. */
  lemma DraftShape(s: Starter)
    ensures var d := MakeDraft(s);
            && (IdSanitize(s.fr.title) != [] ==> d.id == IdSanitize(s.fr.title))
            && (IdSanitize(s.fr.title) == [] ==> d.id == "suggestion")
            && d.description.en == TranslateDesc(d.description.fr)
            && d.variables == DraftVars(s.fr) + Filter(DraftVars(s.en), v => v !in DraftVars(s.fr))
  {
    var base := IdSanitize(s.fr.title);
    UniqueIdNothingTaken(if base != [] then base else "suggestion");
    UnionOrder(DraftVars(s.fr), DraftVars(s.en));
  }

  // ---------------------------------------------------------------------------
  // The output of buildOutput (assets/admin-excel.js:336-341)

  datatype Output = Output(
    templates: seq<Template>, catalog: Catalog, warnings: seq<Warning>,
    errors: seq<BuildError>, rows: seq<NormalizedRow>, suggestions: seq<Draft>)

  /** What every export promises: non-empty, sanitised, pairwise distinct
      template ids, and a catalog holding exactly the template variables,
      each entry well formed and none an inherited name. */
  ghost predicate Consistent(r: Output) {
    && (forall i :: 0 <= i < |r.templates| ==> IsSanitizedId(r.templates[i].id) && r.templates[i].id != [])
    && (forall i, j :: 0 <= i < j < |r.templates| ==> r.templates[i].id != r.templates[j].id)
    && (forall i, v :: 0 <= i < |r.templates| && v in r.templates[i].variables ==> v in r.catalog)
    && (forall k :: k in r.catalog ==> exists i :: 0 <= i < |r.templates| && k in r.templates[i].variables)
    && (forall k :: k in r.catalog ==> WellFormedEntry(k, r.catalog[k]))
    && NoInheritedKeys(r.catalog)
  }

  /** `buildOutput(records)`: nothing when some valid record uses a variable
      every object inherits (`ensureVar` throws and the page reports an
      analysis error); otherwise an export that is consistent, whose templates
      each come from their own record. Whether drafts are wanted is read from
      the page in the source; here it is the parameter `generate`. */
  function BuildOutput(recs: seq<Record>, defaultCategory: string, generate: bool): (r: Option<Output>)
    ensures r.None? <==> exists n :: 0 <= n < |recs| && ThrowsAt(recs, n, defaultCategory)
    ensures r.Some? ==> Consistent(r.value)
    ensures r.Some? ==> |r.value.templates| <= |recs| && AllFrom(r.value.templates, recs, Yields(defaultCategory))
    ensures r.Some? && generate ==> r.value.suggestions == SuggestMissing(r.value.templates)
    ensures r.Some? && !generate ==> r.value.suggestions == []
    ensures r.Some? ==>
              && r.value.warnings == Run(recs, defaultCategory).warnings
              && r.value.errors == Run(recs, defaultCategory).errors
              && r.value.rows == Run(recs, defaultCategory).rows
    ensures r.Some? ==>
              && r.value.templates == Run(recs, defaultCategory).templates
              && r.value.catalog == Run(recs, defaultCategory).catalog
    ensures r.Some? ==>
              && |r.value.rows| == |r.value.templates|
              && forall i :: 0 <= i < |r.value.rows| ==> RowMatches(r.value.rows[i], r.value.templates[i])
  {
    var st := Run(recs, defaultCategory);
    RunThrows(recs, defaultCategory);
    if st.threw then None
    else
      RunInv(recs, defaultCategory);
      RunTemplates(recs, defaultCategory);
      RunRows(recs, defaultCategory);
      Some(Assemble(st, generate))
  }

  /** The export of a final state. */
  function Assemble(st: State, generate: bool): (r: Output)
    requires IdsInv(st) && CatalogInv(st)
    ensures Consistent(r)
    ensures r.templates == st.templates && r.catalog == st.catalog
    ensures r.warnings == st.warnings && r.errors == st.errors && r.rows == st.rows
    ensures generate ==> r.suggestions == SuggestMissing(r.templates)
    ensures !generate ==> r.suggestions == []
  {
    Output(st.templates, st.catalog, st.warnings, st.errors, st.rows,
           if generate then SuggestMissing(st.templates) else [])
  }

  // ---------------------------------------------------------------------------
  // Export metadata (assets/admin-excel.js:531)

  datatype Metadata = Metadata(version: string, totalTemplates: nat, languages: seq<string>, categories: seq<string>)

  function Categories(templates: seq<Template>): (r: seq<string>)
    ensures |r| == |templates|
    ensures forall i :: 0 <= i < |r| ==> r[i] == templates[i].category
  {
    seq(|templates|, i requires 0 <= i < |templates| => templates[i].category)
  }

  /** The metadata of an export: the distinct non-empty categories in order
      of first use. */
  function MetadataOf(templates: seq<Template>): (r: Metadata)
    ensures r.version == "1.0" && r.languages == ["fr", "en"]
    ensures r.totalTemplates == |templates|
    ensures Distinct(r.categories)
    ensures forall c :: c in r.categories ==> c != [] && exists i :: 0 <= i < |templates| && templates[i].category == c
    ensures forall i :: 0 <= i < |templates| && templates[i].category != [] ==> templates[i].category in r.categories
    ensures InFirstUseOrder(r.categories, Categories(templates))
  {
    var cats := Categories(templates);
    DedupFilterOrder(cats, NonEmpty);
    var r := Metadata("1.0", |templates|, ["fr", "en"], Dedup(Filter(cats, NonEmpty)));
    assert forall i :: 0 <= i < |templates| ==> cats[i] in cats;
    r
  }
}
