/** `buildOutput` of assets/admin-excel.js: a left fold over the keyed
    records that validates each one, turns the valid ones into templates and
    fills the global variable catalog. Messages are modelled by structured
    diagnostics; their wording is presentation. */
module Builder {
  import opened Chars
  import opened Strings
  import opened Sanitize
  import opened Header
  import opened Placeholders
  import opened VarDesc
  import opened Variables
  import opened Objects

  // ---------------------------------------------------------------------------
  // Output shapes

  datatype Lang = Fr | En

  datatype BuildError =
    | MissingId
    | InvalidId(rawId: string)
    | DuplicateId(id: string)
    | MissingField(field: string, id: string)

  datatype Warning =
    | NormalizedId(rawId: string, id: string)
    | InvalidVariable(id: string, lang: Lang, entry: string, reason: Reason)
    | UndescribedVariables(id: string, lang: Lang, names: seq<string>)
    | UnusedDescriptions(id: string, lang: Lang, names: seq<string>)

  datatype Template = Template(
    id: string, category: string, title: Bilingual, description: Bilingual,
    subject: Bilingual, body: Bilingual, variables: seq<string>)

  datatype NormalizedRow = NormalizedRow(
    id: string, category: Bilingual, title: Bilingual, description: Bilingual,
    template: Bilingual, varsFr: seq<string>, varsEn: seq<string>)

  /** What the fold carries from one record to the next. `taken` holds the
      lower-cased ids seen so far; `threw` records that `ensureVar` threw, which
      ends the build with no output. */
  datatype State = State(
    taken: set<string>, templates: seq<Template>, catalog: Catalog,
    warnings: seq<Warning>, errors: seq<BuildError>, rows: seq<NormalizedRow>, threw: bool)

  const Init := State({}, [], map[], [], [], [], false)

  // ---------------------------------------------------------------------------
  // Reading a record

  /** `String(row.key || '')`: an absent key reads as empty. */
  function Field(rec: Record, key: string): string {
    if key in rec then rec[key] else []
  }

  /** The text fields of a record, trimmed, and the two raw description cells. */
  datatype Fields = Fields(
    category: Bilingual, title: Bilingual, description: Bilingual,
    template: Bilingual, varsDescRaw: Bilingual)

  function ReadFields(rec: Record): Fields {
    Fields(
      Bilingual(Trim(Field(rec, "category_fr")), Trim(Field(rec, "category_en"))),
      Bilingual(Trim(Field(rec, "title_fr")), Trim(Field(rec, "title_en"))),
      Bilingual(Trim(Field(rec, "description_fr")), Trim(Field(rec, "description_en"))),
      Bilingual(Trim(Field(rec, "template_fr")), Trim(Field(rec, "template_en"))),
      Bilingual(Field(rec, "variables_description_fr"), Field(rec, "variables_description_en")))
  }

  // ---------------------------------------------------------------------------
  // The id checks (assets/admin-excel.js:218-227)

  datatype IdCheck =
    | IdRejected(warnings: seq<Warning>, error: BuildError)
    | IdAccepted(id: string, warnings: seq<Warning>)

  /** The raw id, trimmed. */
  function RawId(rec: Record): string {
    Trim(Field(rec, "id"))
  }

  /** A warning when sanitising did more than transliterate and lower-case. */
  function NormalizationWarnings(rawId: string, id: string): (r: seq<Warning>)
    ensures |r| <= 1
    ensures r != [] <==> id != rawId && id != Lower(Trim(ToAscii(rawId)))
  {
    if id != rawId && id != Lower(Trim(ToAscii(rawId))) then [NormalizedId(rawId, id)] else []
  }

  /** A record passes the id checks when its trimmed id is non-empty, sanitises
      to something non-empty, and that was not taken, case-insensitively. */
  function CheckId(rec: Record, taken: set<string>): (r: IdCheck)
    ensures RawId(rec) == [] ==> r == IdRejected([], MissingId)
    ensures RawId(rec) != [] && IdSanitize(RawId(rec)) == [] ==> r == IdRejected([], InvalidId(RawId(rec)))
    ensures r.IdAccepted? <==>
              RawId(rec) != [] && IdSanitize(RawId(rec)) != [] && Lower(IdSanitize(RawId(rec))) !in taken
    ensures r.IdAccepted? ==> r.id == IdSanitize(RawId(rec))
    ensures r.IdRejected? && RawId(rec) != [] && IdSanitize(RawId(rec)) != [] ==>
              r.error == DuplicateId(IdSanitize(RawId(rec)))
  {
    var rawId := RawId(rec);
    if rawId == [] then IdRejected([], MissingId)
    else
      var id := IdSanitize(rawId);
      if id == [] then IdRejected([], InvalidId(rawId))
      else
        var w := NormalizationWarnings(rawId, id);
        if Lower(id) in taken then IdRejected(w, DuplicateId(id)) else IdAccepted(id, w)
  }

  // ---------------------------------------------------------------------------
  // Mandatory fields (assets/admin-excel.js:240-256)

  /** The ten mandatory fields with their labels, in the source's order. */
  function Labeled(f: Fields): seq<(string, string)> {
    [("CATEGORY_FR", f.category.fr), ("Category_EN", f.category.en),
     ("TITLE_FR", f.title.fr), ("TITLE_EN", f.title.en),
     ("DESCRIPTION_FR", f.description.fr), ("Description_EN", f.description.en),
     ("TEMPLATE_FR", f.template.fr), ("TEMPLATE_EN", f.template.en),
     ("VARIABLES_Description_FR", Trim(f.varsDescRaw.fr)),
     ("VARIABLES_Description_EN", Trim(f.varsDescRaw.en))]
  }

  /** Every mandatory field is non-empty. */
  predicate HasAllFields(f: Fields) {
    forall i :: 0 <= i < |Labeled(f)| ==> Labeled(f)[i].1 != []
  }

  predicate IsEmptyField(p: (string, string)) { p.1 == [] }

  /** The labels of the empty fields, in order: one label for each empty
      field, and nothing else. */
  function MissingLabels(pairs: seq<(string, string)>): (r: seq<string>)
    ensures |r| == |Filter(pairs, IsEmptyField)|
    ensures forall i :: 0 <= i < |r| ==> r[i] == Filter(pairs, IsEmptyField)[i].0
    ensures r == [] <==> forall i :: 0 <= i < |pairs| ==> pairs[i].1 != []
    ensures forall i :: 0 <= i < |pairs| && pairs[i].1 == [] ==> pairs[i].0 in r
    ensures forall x :: x in r ==> exists i :: 0 <= i < |pairs| && pairs[i] == (x, [])
  {
    if pairs == [] then []
    else
      var rest := MissingLabels(pairs[1..]);
      var head := if pairs[0].1 == [] then [pairs[0].0] else [];
      MissingLabelsStep(pairs);
      LabelsOfEmpty(pairs, head + rest);
      head + rest
  }

  /** `pairs` is its head followed by its tail, for the filter and for the
      quantifiers over indices. */
  lemma MissingLabelsStep(pairs: seq<(string, string)>)
    requires pairs != []
    ensures forall i :: 1 <= i < |pairs| ==> pairs[i] == pairs[1..][i - 1]
    ensures Filter(pairs, IsEmptyField)
            == (if IsEmptyField(pairs[0]) then [pairs[0]] else []) + Filter(pairs[1..], IsEmptyField)
  {
  }

  /** The labels of the empty pairs, in order, are exactly the labels of the
      empty pairs as a collection. */
  lemma LabelsOfEmpty(pairs: seq<(string, string)>, r: seq<string>)
    requires |r| == |Filter(pairs, IsEmptyField)|
    requires forall i :: 0 <= i < |r| ==> r[i] == Filter(pairs, IsEmptyField)[i].0
    ensures r == [] <==> forall i :: 0 <= i < |pairs| ==> pairs[i].1 != []
    ensures forall i :: 0 <= i < |pairs| && pairs[i].1 == [] ==> pairs[i].0 in r
    ensures forall x :: x in r ==> exists i :: 0 <= i < |pairs| && pairs[i] == (x, [])
  {
    var f := Filter(pairs, IsEmptyField);
    forall i | 0 <= i < |pairs| && pairs[i].1 == []
      ensures pairs[i].0 in r
    {
      assert pairs[i] in f;
      var j :| 0 <= j < |f| && f[j] == pairs[i];
      assert r[j] == pairs[i].0;
    }
    forall x | x in r
      ensures exists i :: 0 <= i < |pairs| && pairs[i] == (x, [])
    {
      var j :| 0 <= j < |r| && r[j] == x;
      assert f[j] in f;
      var i :| 0 <= i < |pairs| && pairs[i] == f[j];
      assert pairs[i] == (x, []);
    }
  }

  /** One error per missing field. */
  function MissingErrors(labels: seq<string>, id: string): (r: seq<BuildError>)
    ensures |r| == |labels|
    ensures forall i :: 0 <= i < |r| ==> r[i] == MissingField(labels[i], id)
  {
    seq(|labels|, i requires 0 <= i < |labels| => MissingField(labels[i], id))
  }

  // ---------------------------------------------------------------------------
  // Template variables (assets/admin-excel.js:265-268)

  /** `.map(canonicalVar)`. */
  function CanonicalNames(names: seq<string>): (r: seq<string>)
    ensures |r| == |names|
    ensures forall i :: 0 <= i < |r| ==> r[i] == CanonicalVar(names[i])
  {
    seq(|names|, i requires 0 <= i < |names| => CanonicalVar(names[i]))
  }

  /** The sorted, distinct, non-empty canonical names of a template's
      placeholders. */
  function TemplateVars(template: string): (r: seq<string>)
    ensures StrictlySorted(r) && Distinct(r)
    ensures forall v :: v in r ==> v != [] && IsCanonicalName(v)
    ensures forall v :: v in r <==> v != [] && v in CanonicalNames(ExtractPlaceholders(template))
  {
    var r := SortDedup(Filter(CanonicalNames(ExtractPlaceholders(template)), NonEmpty));
    StrictlySortedDistinct(r);
    r
  }

  /** `[...new Set([...varsFr, ...varsEn])]`: the FR names, then the EN names
      the FR list lacks. */
  function Union(varsFr: seq<string>, varsEn: seq<string>): seq<string> {
    Dedup(varsFr + varsEn)
  }

  lemma UnionOrder(varsFr: seq<string>, varsEn: seq<string>)
    requires Distinct(varsFr) && Distinct(varsEn)
    ensures Union(varsFr, varsEn) == varsFr + Filter(varsEn, v => v !in varsFr)
  {
    DedupAppend(varsFr, varsEn);
  }

  // ---------------------------------------------------------------------------
  // Description warnings (assets/admin-excel.js:262-285)

  function IssueWarnings(id: string, lang: Lang, issues: seq<Issue>): (r: seq<Warning>)
    ensures |r| == |issues|
    ensures forall i :: 0 <= i < |r| ==>
              r[i] == InvalidVariable(id, lang, issues[i].entry, issues[i].reason)
  {
    seq(|issues|, i requires 0 <= i < |issues| =>
      InvalidVariable(id, lang, issues[i].entry, issues[i].reason))
  }

  /** The template variables with no description entry. */
  function Undescribed(vars: seq<string>, descs: map<string, Desc>): (r: seq<string>)
    ensures forall v :: v in r <==> v in vars && v !in descs
  {
    Filter(vars, v => v !in descs)
  }

  /** The described names, in entry order, the template does not use. */
  function Unused(keys: seq<string>, vars: seq<string>): (r: seq<string>)
    ensures forall k :: k in r <==> k in keys && k !in vars
  {
    Filter(keys, k => k !in vars)
  }

  /** A warning naming `names`, when there are any. */
  function Report(w: Warning, names: seq<string>): (r: seq<Warning>)
    ensures r == [] <==> names == []
    ensures forall x :: x in r <==> x == w && names != []
  {
    if names == [] then [] else [w]
  }

  /** Missing descriptions, FR then EN, then unused ones, FR then EN. There is
      no warning exactly when every variable of each template is described
      and every description is used. */
  function DescriptionWarnings(id: string, varsFr: seq<string>, varsEn: seq<string>, fr: Parsed, en: Parsed): (r: seq<Warning>)
    ensures |r| <= 4
    ensures r == [] <==>
              && (forall v :: v in varsFr ==> v in fr.descs) && (forall v :: v in varsEn ==> v in en.descs)
              && (forall k :: k in fr.keys ==> k in varsFr) && (forall k :: k in en.keys ==> k in varsEn)
    ensures UndescribedVariables(id, Fr, Undescribed(varsFr, fr.descs)) in r <==>
              exists v :: v in varsFr && v !in fr.descs
    ensures UndescribedVariables(id, En, Undescribed(varsEn, en.descs)) in r <==>
              exists v :: v in varsEn && v !in en.descs
    ensures UnusedDescriptions(id, Fr, Unused(fr.keys, varsFr)) in r <==>
              exists k :: k in fr.keys && k !in varsFr
    ensures UnusedDescriptions(id, En, Unused(en.keys, varsEn)) in r <==>
              exists k :: k in en.keys && k !in varsEn
    ensures forall w :: w in r ==>
              || w == UndescribedVariables(id, Fr, Undescribed(varsFr, fr.descs))
              || w == UndescribedVariables(id, En, Undescribed(varsEn, en.descs))
              || w == UnusedDescriptions(id, Fr, Unused(fr.keys, varsFr))
              || w == UnusedDescriptions(id, En, Unused(en.keys, varsEn))
  {
    var a := Undescribed(varsFr, fr.descs);
    var b := Undescribed(varsEn, en.descs);
    var c := Unused(fr.keys, varsFr);
    var d := Unused(en.keys, varsEn);
    NoneListed(a);
    NoneListed(b);
    NoneListed(c);
    NoneListed(d);
    FourReports(UndescribedVariables(id, Fr, a), a, UndescribedVariables(id, En, b), b,
                UnusedDescriptions(id, Fr, c), c, UnusedDescriptions(id, En, d), d);
    assert (exists v :: v in varsFr && v !in fr.descs) <==> a != [];
    assert (exists v :: v in varsEn && v !in en.descs) <==> b != [];
    assert (exists k :: k in fr.keys && k !in varsFr) <==> c != [];
    assert (exists k :: k in en.keys && k !in varsEn) <==> d != [];
    Report(UndescribedVariables(id, Fr, a), a) + Report(UndescribedVariables(id, En, b), b)
    + Report(UnusedDescriptions(id, Fr, c), c) + Report(UnusedDescriptions(id, En, d), d)
  }

  /** Four reports of four distinct warnings: each warning is there exactly
      when its list is non-empty, and nothing else is. */
  lemma FourReports(wa: Warning, a: seq<string>, wb: Warning, b: seq<string>,
                    wc: Warning, c: seq<string>, wd: Warning, d: seq<string>)
    requires wa != wb && wa != wc && wa != wd && wb != wc && wb != wd && wc != wd
    ensures var r := Report(wa, a) + Report(wb, b) + Report(wc, c) + Report(wd, d);
            && |r| <= 4
            && (r == [] <==> a == [] && b == [] && c == [] && d == [])
            && (wa in r <==> a != []) && (wb in r <==> b != [])
            && (wc in r <==> c != []) && (wd in r <==> d != [])
            && (forall w :: w in r ==> w == wa || w == wb || w == wc || w == wd)
  {
    var r := Report(wa, a) + Report(wb, b) + Report(wc, c) + Report(wd, d);
    assert forall w :: w in r <==> w in Report(wa, a) || w in Report(wb, b) || w in Report(wc, c) || w in Report(wd, d);
  }

  lemma NoneListed(s: seq<string>)
    ensures s == [] <==> forall x :: x !in s
  {
    if s != [] {
      assert s[0] in s;
    }
  }

  // ---------------------------------------------------------------------------
  // A valid record (assets/admin-excel.js:258-334)

  /** `category_fr || category_en || options.defaultCategory || ''`. */
  function Category(f: Fields, defaultCategory: string): (r: string)
    ensures f.category.fr != [] ==> r == f.category.fr
  {
    if f.category.fr != [] then f.category.fr
    else if f.category.en != [] then f.category.en
    else defaultCategory
  }

  /** The template a valid record becomes; the subject is the title. */
  function MakeTemplate(id: string, f: Fields, defaultCategory: string): Template {
    Template(id, Category(f, defaultCategory), f.title, f.description, f.title, f.template,
             Union(TemplateVars(f.template.fr), TemplateVars(f.template.en)))
  }

  /** `varsFr.forEach(ensureVar); varsEn.forEach(ensureVar)`: it throws
      exactly when some variable is a name the catalog inherits; otherwise it
      adds exactly the non-empty variables, and each ends with the
      description and default value this record gives it. */
  function AddVariables(c: Catalog, varsFr: seq<string>, varsEn: seq<string>,
                        fr: map<string, Desc>, en: map<string, Desc>): (r: Option<Catalog>)
    ensures r.None? <==> exists v :: v in varsFr + varsEn && InheritsKey(c, v)
    ensures r.Some? ==> r.value.Keys == c.Keys + (set v | v in varsFr + varsEn && v != [])
    ensures r.Some? ==> forall v :: v in varsFr + varsEn && v != [] ==> Supplied(fr, en, v, r.value[v])
  {
    match EnsureVars(c, varsFr, fr, en)
    case None =>
      assert forall v :: v in varsFr ==> v in varsFr + varsEn;
      None
    case Some(c1) =>
      AddVariablesThrows(c, varsFr, varsEn, fr, en, c1);
      match EnsureVars(c1, varsEn, fr, en)
      case None => None
      case Some(c2) =>
        AddVariablesKeys(c, varsFr, varsEn, c1, c2);
        AddVariablesSupplied(c1, varsFr, varsEn, fr, en);
        Some(c2)
  }

  lemma AddVariablesThrows(c: Catalog, varsFr: seq<string>, varsEn: seq<string>,
                           fr: map<string, Desc>, en: map<string, Desc>, c1: Catalog)
    requires EnsureVars(c, varsFr, fr, en) == Some(c1)
    ensures EnsureVars(c1, varsEn, fr, en).None? <==> exists v :: v in varsFr + varsEn && InheritsKey(c, v)
  {
    assert forall v :: v in varsFr + varsEn <==> v in varsFr || v in varsEn;
    forall v | v in varsEn ensures InheritsKey(c1, v) <==> InheritsKey(c, v) {
      if v != [] && v in varsFr {
        assert !InheritsKey(c, v);
      }
    }
  }

  lemma AddVariablesKeys(c: Catalog, varsFr: seq<string>, varsEn: seq<string>, c1: Catalog, c2: Catalog)
    requires c1.Keys == c.Keys + (set v | v in varsFr && v != [])
    requires c2.Keys == c1.Keys + (set v | v in varsEn && v != [])
    ensures c2.Keys == c.Keys + (set v | v in varsFr + varsEn && v != [])
  {
    assert forall v :: v in varsFr + varsEn <==> v in varsFr || v in varsEn;
  }

  /** The EN pass ensures again, with the same record, what the FR pass
      supplied, so the record's values survive it. */
  lemma AddVariablesSupplied(c1: Catalog, varsFr: seq<string>, varsEn: seq<string>,
                             fr: map<string, Desc>, en: map<string, Desc>)
    requires forall v :: v in varsFr && v != [] ==> v in c1 && Supplied(fr, en, v, c1[v])
    requires EnsureVars(c1, varsEn, fr, en).Some?
    ensures forall v :: v in varsFr + varsEn && v != [] ==>
              Supplied(fr, en, v, EnsureVars(c1, varsEn, fr, en).value[v])
  {
    assert forall v :: v in varsFr + varsEn <==> v in varsFr || v in varsEn;
  }

  lemma AddVariablesWellFormed(c: Catalog, varsFr: seq<string>, varsEn: seq<string>,
                               fr: map<string, Desc>, en: map<string, Desc>)
    requires WellFormedCatalog(c) && NoInheritedKeys(c) && AddVariables(c, varsFr, varsEn, fr, en).Some?
    ensures WellFormedCatalog(AddVariables(c, varsFr, varsEn, fr, en).value)
    ensures NoInheritedKeys(AddVariables(c, varsFr, varsEn, fr, en).value)
  {
    var c1 := EnsureVars(c, varsFr, fr, en).value;
    EnsureVarsWellFormed(c, varsFr, fr, en);
    EnsureVarsNoInherited(c, varsFr, fr, en);
    EnsureVarsWellFormed(c1, varsEn, fr, en);
    EnsureVarsNoInherited(c1, varsEn, fr, en);
  }

  // ---------------------------------------------------------------------------
  // One record: what it yields, then how that updates the state

  /** What the checks make of one record. */
  datatype Analysis =
    | Reject(rejectWarnings: seq<Warning>, error: BuildError)
    | Incomplete(id: string, idWarnings: seq<Warning>, missing: seq<string>)
    | Valid(id: string, idWarnings: seq<Warning>, more: seq<Warning>, template: Template,
            row: NormalizedRow, varsFr: seq<string>, varsEn: seq<string>,
            fr: map<string, Desc>, en: map<string, Desc>)

  /** A record that passed every check: its descriptions are parsed (EN
      first), their issues and the description warnings recorded, and its
      template and normalised row built. */
  function AnalyzeValid(id: string, w: seq<Warning>, f: Fields, defaultCategory: string): (r: Analysis)
    ensures r.Valid? && r.id == id && r.idWarnings == w
    ensures r.template == MakeTemplate(id, f, defaultCategory)
    ensures r.varsFr == TemplateVars(f.template.fr) && r.varsEn == TemplateVars(f.template.en)
    ensures r.row.id == id && r.row.category == f.category && r.row.title == f.title
            && r.row.description == f.description && r.row.template == f.template
            && r.row.varsFr == r.varsFr && r.row.varsEn == r.varsEn
    ensures r.fr == ParseVariableDescriptions(f.varsDescRaw.fr).descs
    ensures r.en == ParseVariableDescriptions(f.varsDescRaw.en).descs
    ensures r.more == IssueWarnings(id, En, ParseVariableDescriptions(f.varsDescRaw.en).issues)
                      + IssueWarnings(id, Fr, ParseVariableDescriptions(f.varsDescRaw.fr).issues)
                      + DescriptionWarnings(id, r.varsFr, r.varsEn, ParseVariableDescriptions(f.varsDescRaw.fr),
                                            ParseVariableDescriptions(f.varsDescRaw.en))
  {
    var en := ParseVariableDescriptions(f.varsDescRaw.en);
    var fr := ParseVariableDescriptions(f.varsDescRaw.fr);
    var varsFr := TemplateVars(f.template.fr);
    var varsEn := TemplateVars(f.template.en);
    var more := IssueWarnings(id, En, en.issues) + IssueWarnings(id, Fr, fr.issues)
                + DescriptionWarnings(id, varsFr, varsEn, fr, en);
    var row := NormalizedRow(id, f.category, f.title, f.description, f.template, varsFr, varsEn);
    Valid(id, w, more, MakeTemplate(id, f, defaultCategory), row, varsFr, varsEn, fr.descs, en.descs)
  }

  function Analyze(rec: Record, taken: set<string>, defaultCategory: string): (r: Analysis)
    ensures r.Reject? <==> CheckId(rec, taken).IdRejected?
    ensures !r.Reject? ==> r.id == CheckId(rec, taken).id
  {
    match CheckId(rec, taken)
    case IdRejected(w, e) => Reject(w, e)
    case IdAccepted(id, w) =>
      var f := ReadFields(rec);
      var missing := MissingLabels(Labeled(f));
      if missing != [] then Incomplete(id, w, missing) else AnalyzeValid(id, w, f, defaultCategory)
  }

  /** A valid record whose `ensureVar` calls throw. */
  predicate Throws(st: State, a: Analysis) {
    a.Valid? && AddVariables(st.catalog, a.varsFr, a.varsEn, a.fr, a.en).None?
  }

  /** The state after a record. A rejected record adds its diagnostics; any
      record past the id checks reserves its id, even when a field is then
      found missing; only a valid record adds a template and variables, and
      when adding its variables throws, the build stops. */
  function Apply(st: State, a: Analysis): (r: State)
    ensures Throws(st, a) ==> r == st.(threw := true)
    ensures !Throws(st, a) ==> r.threw == st.threw
    ensures r.templates == st.templates + (if a.Valid? && !Throws(st, a) then [a.template] else [])
    ensures !Throws(st, a) ==> r.taken == if a.Reject? then st.taken else st.taken + {Lower(a.id)}
    ensures !a.Valid? ==> r.catalog == st.catalog
    ensures a.Valid? && !Throws(st, a) ==>
              Some(r.catalog) == AddVariables(st.catalog, a.varsFr, a.varsEn, a.fr, a.en)
    ensures a.Reject? ==> r == st.(warnings := st.warnings + a.rejectWarnings, errors := st.errors + [a.error])
    ensures a.Incomplete? ==>
              && r.warnings == st.warnings + a.idWarnings
              && r.errors == st.errors + MissingErrors(a.missing, a.id)
              && r.rows == st.rows
    ensures a.Valid? && !Throws(st, a) ==>
              && r.warnings == st.warnings + a.idWarnings + a.more
              && r.errors == st.errors
              && r.rows == st.rows + [a.row]
  {
    match a
    case Reject(w, e) => st.(warnings := st.warnings + w, errors := st.errors + [e])
    case Incomplete(id, w, missing) =>
      st.(taken := st.taken + {Lower(id)}, warnings := st.warnings + w,
          errors := st.errors + MissingErrors(missing, id))
    case Valid(id, w, more, t, row, varsFr, varsEn, fr, en) =>
      match AddVariables(st.catalog, varsFr, varsEn, fr, en)
      case None => st.(threw := true)
      case Some(c) =>
        st.(taken := st.taken + {Lower(id)}, warnings := st.warnings + w + more,
            templates := st.templates + [t], catalog := c, rows := st.rows + [row])
  }

  function Process(st: State, rec: Record, defaultCategory: string): State {
    Apply(st, Analyze(rec, st.taken, defaultCategory))
  }

  /** An empty id, or one that sanitises to nothing, is rejected with one
      error. */
  lemma AnalyzeBadId(rec: Record, taken: set<string>, defaultCategory: string)
    requires RawId(rec) == [] || IdSanitize(RawId(rec)) == []
    ensures Analyze(rec, taken, defaultCategory)
              == Reject([], if RawId(rec) == [] then MissingId else InvalidId(RawId(rec)))
  {
  }

  /** A bad id costs one error and changes nothing else. */
  lemma ProcessBadId(st: State, rec: Record, defaultCategory: string)
    requires RawId(rec) == [] || IdSanitize(RawId(rec)) == []
    ensures Process(st, rec, defaultCategory)
              == st.(errors := st.errors + [if RawId(rec) == [] then MissingId else InvalidId(RawId(rec))])
  {
    var e := if RawId(rec) == [] then MissingId else InvalidId(RawId(rec));
    assert Analyze(rec, st.taken, defaultCategory) == Reject([], e) by {
      AnalyzeBadId(rec, st.taken, defaultCategory);
    }
    assert st.warnings + [] == st.warnings;
  }

  /** A fresh id with an empty mandatory field gives one error per empty
      field. */
  lemma AnalyzeIncomplete(rec: Record, taken: set<string>, defaultCategory: string)
    requires CheckId(rec, taken).IdAccepted? && !HasAllFields(ReadFields(rec))
    ensures var a := Analyze(rec, taken, defaultCategory);
            a == Incomplete(IdSanitize(RawId(rec)), CheckId(rec, taken).warnings,
                            MissingLabels(Labeled(ReadFields(rec))))
            && a.missing != []
  {
  }

  /** Such a record adds no template and one error per empty field, in the
      fields' order, but its id is taken from then on. */
  lemma ProcessMissingFields(st: State, rec: Record, defaultCategory: string)
    requires CheckId(rec, st.taken).IdAccepted? && !HasAllFields(ReadFields(rec))
    ensures var r := Process(st, rec, defaultCategory);
            var missing := MissingLabels(Labeled(ReadFields(rec)));
            && Lower(IdSanitize(RawId(rec))) in r.taken
            && r.templates == st.templates && r.catalog == st.catalog
            && r.errors == st.errors + MissingErrors(missing, IdSanitize(RawId(rec)))
            && missing != []
    ensures var r := Process(st, rec, defaultCategory);
            var fields := Labeled(ReadFields(rec));
            && |r.errors| == |st.errors| + |Filter(fields, IsEmptyField)|
            && forall i :: 0 <= i < |fields| && fields[i].1 == [] ==>
                 MissingField(fields[i].0, IdSanitize(RawId(rec))) in r.errors
  {
    AnalyzeIncomplete(rec, st.taken, defaultCategory);
    MissingErrorsCover(Labeled(ReadFields(rec)), IdSanitize(RawId(rec)));
  }

  /** The errors of the missing labels name every empty field. */
  lemma MissingErrorsCover(fields: seq<(string, string)>, id: string)
    ensures var e := MissingErrors(MissingLabels(fields), id);
            && |e| == |Filter(fields, IsEmptyField)|
            && forall i :: 0 <= i < |fields| && fields[i].1 == [] ==> MissingField(fields[i].0, id) in e
  {
    var missing := MissingLabels(fields);
    var e := MissingErrors(missing, id);
    forall i | 0 <= i < |fields| && fields[i].1 == []
      ensures MissingField(fields[i].0, id) in e
    {
      var j :| 0 <= j < |missing| && missing[j] == fields[i].0;
      assert e[j] == MissingField(missing[j], id);
    }
  }

  /** A record with a fresh id and every field yields its template. */
  lemma AnalyzeComplete(rec: Record, taken: set<string>, defaultCategory: string)
    requires CheckId(rec, taken).IdAccepted? && HasAllFields(ReadFields(rec))
    ensures var a := Analyze(rec, taken, defaultCategory);
            a.Valid? && a.template == MakeTemplate(IdSanitize(RawId(rec)), ReadFields(rec), defaultCategory)
  {
    var f := ReadFields(rec);
    assert MissingLabels(Labeled(f)) == [];
    var c := CheckId(rec, taken);
    assert Analyze(rec, taken, defaultCategory) == AnalyzeValid(c.id, c.warnings, f, defaultCategory);
  }

  /** A record dropped for a missing field still blocks a later record with
      the same id. */
  lemma DroppedRecordReservesId(st: State, first: Record, second: Record, defaultCategory: string)
    requires CheckId(first, st.taken).IdAccepted? && !HasAllFields(ReadFields(first))
    requires IdSanitize(RawId(second)) == IdSanitize(RawId(first))
    ensures var s1 := Process(st, first, defaultCategory);
            Analyze(second, s1.taken, defaultCategory) == Reject(CheckId(second, s1.taken).warnings,
                                                                 DuplicateId(IdSanitize(RawId(first))))
            && Process(s1, second, defaultCategory).templates == st.templates
  {
    ProcessMissingFields(st, first, defaultCategory);
    var s1 := Process(st, first, defaultCategory);
    SameIdNotEmpty(first, second);
    assert CheckId(second, s1.taken).IdRejected?;
  }

  lemma SameIdNotEmpty(first: Record, second: Record)
    requires IdSanitize(RawId(first)) != []
    requires IdSanitize(RawId(second)) == IdSanitize(RawId(first))
    ensures RawId(second) != []
  {
  }

  /** The description a valid record gives a variable it uses is the one the
      catalog holds after it, in each language, and so is its default value
      (FR before EN). */
  lemma ProcessDescribes(st: State, rec: Record, defaultCategory: string, v: string)
    requires Analyze(rec, st.taken, defaultCategory).Valid?
    requires !Throws(st, Analyze(rec, st.taken, defaultCategory))
    requires v in Analyze(rec, st.taken, defaultCategory).template.variables
    ensures var f := ReadFields(rec);
            var r := Process(st, rec, defaultCategory);
            && v in r.catalog
            && Supplied(ParseVariableDescriptions(f.varsDescRaw.fr).descs,
                        ParseVariableDescriptions(f.varsDescRaw.en).descs, v, r.catalog[v])
  {
    var f := ReadFields(rec);
    var a := Analyze(rec, st.taken, defaultCategory);
    var fr := ParseVariableDescriptions(f.varsDescRaw.fr).descs;
    var en := ParseVariableDescriptions(f.varsDescRaw.en).descs;
    AnalyzeValidDescs(rec, st.taken, defaultCategory);
    assert v in a.varsFr + a.varsEn;
    var c := AddVariables(st.catalog, a.varsFr, a.varsEn, fr, en);
    assert Some(Process(st, rec, defaultCategory).catalog) == c;
    assert v in c.value && Supplied(fr, en, v, c.value[v]);
  }

  /** A valid analysis carries the record's parsed description maps, and its
      template's variables are its non-empty FR and EN variables. */
  lemma AnalyzeValidDescs(rec: Record, taken: set<string>, defaultCategory: string)
    requires Analyze(rec, taken, defaultCategory).Valid?
    ensures var a := Analyze(rec, taken, defaultCategory);
            var f := ReadFields(rec);
            && a.fr == ParseVariableDescriptions(f.varsDescRaw.fr).descs
            && a.en == ParseVariableDescriptions(f.varsDescRaw.en).descs
            && (forall v :: v in a.template.variables <==> v in a.varsFr || v in a.varsEn)
            && (forall v :: v in a.varsFr || v in a.varsEn ==> v != [])
  {
    var f := ReadFields(rec);
    var c := CheckId(rec, taken);
    assert c.IdAccepted?;
    assert MissingLabels(Labeled(f)) == [];
    AnalyzeValidSound(c.id, c.warnings, f, defaultCategory);
  }

  /** Once the catalog holds no inherited name, a valid record throws exactly
      when one of its template variables is such a name. */
  lemma ThrowsMeaning(st: State, a: Analysis)
    requires CatalogInv(st) && Sound(a, st.taken)
    ensures Throws(st, a) <==> a.Valid? && exists v :: v in a.template.variables && v in InheritedNames
  {
    if a.Valid? {
      assert forall v :: v in a.varsFr + a.varsEn <==> v in a.template.variables;
    }
  }

  /** `constructor` is a canonical variable name that every object inherits:
      a template using it throws in any catalog without inherited keys. */
  lemma ConstructorThrows()
    ensures IsCanonicalName("constructor") && CanonicalVar("constructor") == "constructor"
    ensures "constructor" in InheritedNames
    ensures forall c: Catalog :: NoInheritedKeys(c) ==> InheritsKey(c, "constructor")
  {
    assert IsCanonicalName("constructor");
    CanonicalVarOfCanonical("constructor");
  }

  // ---------------------------------------------------------------------------
  // The fold

  /** The records folded left to right from the empty state, each record
      analysed against the ids taken so far by `analyze`. */
  function Fold(recs: seq<Record>, analyze: (Record, set<string>) -> Analysis): State
    decreases |recs|
  {
    if recs == [] then Init
    else
      var prev := Fold(recs[..|recs| - 1], analyze);
      if prev.threw then prev else Apply(prev, analyze(recs[|recs| - 1], prev.taken))
  }

  function Analyzer(defaultCategory: string): (Record, set<string>) -> Analysis {
    (rec, taken) => Analyze(rec, taken, defaultCategory)
  }

  /** `buildOutput`'s loop: each record processed in turn. */
  function Run(recs: seq<Record>, defaultCategory: string): State {
    Fold(recs, Analyzer(defaultCategory))
  }

  /** Each step of the run is `Process`, until a record throws; nothing
      after it is processed. */
  lemma RunStep(recs: seq<Record>, defaultCategory: string)
    requires recs != []
    ensures var prev := Run(recs[..|recs| - 1], defaultCategory);
            Run(recs, defaultCategory)
              == if prev.threw then prev else Process(prev, recs[|recs| - 1], defaultCategory)
  {
  }

  /** Every emitted id is sanitised, non-empty and taken, and no two are
      equal. */
  ghost predicate IdsInv(st: State) {
    && (forall i :: 0 <= i < |st.templates| ==>
          IsSanitizedId(st.templates[i].id) && st.templates[i].id != [] && Lower(st.templates[i].id) in st.taken)
    && (forall i, j :: 0 <= i < j < |st.templates| ==> st.templates[i].id != st.templates[j].id)
  }

  /** The catalog holds exactly the variables of the emitted templates, every
      entry well formed, and no key is a name every object inherits. */
  ghost predicate CatalogInv(st: State) {
    && (forall i, v :: 0 <= i < |st.templates| && v in st.templates[i].variables ==> v in st.catalog)
    && (forall k :: k in st.catalog ==> exists i :: 0 <= i < |st.templates| && k in st.templates[i].variables)
    && WellFormedCatalog(st.catalog)
    && NoInheritedKeys(st.catalog)
  }

  /** What the invariants need to know about an analysis. */
  ghost predicate Sound(a: Analysis, taken: set<string>) {
    && (!a.Reject? ==> IsSanitizedId(a.id) && a.id != [] && Lower(a.id) !in taken)
    && (a.Valid? ==>
          && a.template.id == a.id
          && (forall v :: v in a.template.variables <==> v in a.varsFr || v in a.varsEn)
          && (forall v :: v in a.varsFr || v in a.varsEn ==> v != []))
  }

  lemma AnalyzeValidSound(id: string, w: seq<Warning>, f: Fields, defaultCategory: string)
    ensures var a := AnalyzeValid(id, w, f, defaultCategory);
            && a.template.id == id
            && (forall v :: v in a.template.variables <==> v in a.varsFr || v in a.varsEn)
            && (forall v :: v in a.varsFr || v in a.varsEn ==> v != [])
  {
    var varsFr := TemplateVars(f.template.fr);
    var varsEn := TemplateVars(f.template.en);
    assert forall v :: v in varsFr + varsEn <==> v in varsFr || v in varsEn;
  }

  lemma AnalyzeSound(rec: Record, taken: set<string>, defaultCategory: string)
    ensures Sound(Analyze(rec, taken, defaultCategory), taken)
  {
    match CheckId(rec, taken)
    case IdRejected(_, _) =>
    case IdAccepted(id, w) =>
      var f := ReadFields(rec);
      if MissingLabels(Labeled(f)) == [] {
        AnalyzeValidSound(id, w, f, defaultCategory);
      }
  }

  lemma ApplyIds(st: State, a: Analysis)
    requires IdsInv(st) && Sound(a, st.taken)
    ensures IdsInv(Apply(st, a))
  {
    var r := Apply(st, a);
    if a.Valid? && !Throws(st, a) {
      assert r.templates[|st.templates|].id == a.id;
      forall i | 0 <= i < |st.templates| ensures st.templates[i].id != a.id {
        assert Lower(st.templates[i].id) in st.taken;
      }
    }
  }

  lemma ApplyCatalog(st: State, a: Analysis)
    requires CatalogInv(st) && Sound(a, st.taken)
    ensures CatalogInv(Apply(st, a))
  {
    var r := Apply(st, a);
    if a.Valid? && !Throws(st, a) {
      AddVariablesWellFormed(st.catalog, a.varsFr, a.varsEn, a.fr, a.en);
      assert forall v :: v in a.varsFr + a.varsEn <==> v in a.varsFr || v in a.varsEn;
      CatalogCovered(st.templates, st.catalog, a.template, r.catalog);
      CatalogHolds(st.templates, st.catalog, a.template, r.catalog);
    }
  }

  /** Every catalog key still comes from some template once a template is
      appended whose variables account for the new keys. */
  lemma CatalogCovered(ts: seq<Template>, c: Catalog, t: Template, c2: Catalog)
    requires forall k :: k in c ==> exists i :: 0 <= i < |ts| && k in ts[i].variables
    requires forall k :: k in c2 ==> k in c || k in t.variables
    ensures forall k :: k in c2 ==> exists i :: 0 <= i < |ts + [t]| && k in (ts + [t])[i].variables
  {
    forall k | k in c2 ensures exists i :: 0 <= i < |ts + [t]| && k in (ts + [t])[i].variables {
      if k in c {
        var i :| 0 <= i < |ts| && k in ts[i].variables;
        assert (ts + [t])[i] == ts[i];
      } else {
        assert (ts + [t])[|ts|] == t;
      }
    }
  }

  /** Every template variable is still a catalog key once the appended
      template's variables are added. */
  lemma CatalogHolds(ts: seq<Template>, c: Catalog, t: Template, c2: Catalog)
    requires forall i, v :: 0 <= i < |ts| && v in ts[i].variables ==> v in c
    requires c.Keys <= c2.Keys && forall v :: v in t.variables ==> v in c2
    ensures forall i, v :: 0 <= i < |ts + [t]| && v in (ts + [t])[i].variables ==> v in c2
  {
    forall i, v | 0 <= i < |ts + [t]| && v in (ts + [t])[i].variables ensures v in c2 {
      if i < |ts| {
        assert (ts + [t])[i] == ts[i];
      }
    }
  }

  /** The invariants hold after any fold whose analyses are sound. */
  lemma {:induction false} FoldInv(recs: seq<Record>, analyze: (Record, set<string>) -> Analysis)
    requires forall rec, taken :: Sound(analyze(rec, taken), taken)
    ensures IdsInv(Fold(recs, analyze)) && CatalogInv(Fold(recs, analyze))
    decreases |recs|
  {
    if recs != [] {
      var n := |recs| - 1;
      var prev := Fold(recs[..n], analyze);
      FoldInv(recs[..n], analyze);
      if !prev.threw {
        ApplyIds(prev, analyze(recs[n], prev.taken));
        ApplyCatalog(prev, analyze(recs[n], prev.taken));
      }
    }
  }

  /** The emitted ids are distinct sanitised ids; the catalog holds exactly
      the emitted templates' variables, each entry with both descriptions and
      an example non-empty and the format inferred from its name. */
  lemma RunInv(recs: seq<Record>, defaultCategory: string)
    ensures IdsInv(Run(recs, defaultCategory)) && CatalogInv(Run(recs, defaultCategory))
  {
    var an := Analyzer(defaultCategory);
    forall rec, taken ensures Sound(an(rec, taken), taken) {
      AnalyzeSound(rec, taken, defaultCategory);
    }
    FoldInv(recs, an);
  }

  /** A normalised row describes the same record as its template: the same
      id, title, description and template texts. */
  predicate RowMatches(row: NormalizedRow, t: Template) {
    row.id == t.id && row.title == t.title && row.description == t.description && row.template == t.body
  }

  /** Rows and templates are pushed together: one row per template, in the
      same order. */
  predicate RowsMatch(st: State) {
    |st.rows| == |st.templates| && forall i :: 0 <= i < |st.rows| ==> RowMatches(st.rows[i], st.templates[i])
  }

  /** A valid record's row matches its template. */
  lemma AnalyzeRowMatches(rec: Record, taken: set<string>, defaultCategory: string)
    ensures var a := Analyze(rec, taken, defaultCategory);
            a.Valid? ==> RowMatches(a.row, a.template)
  {
    var a := Analyze(rec, taken, defaultCategory);
    if a.Valid? {
      var f := ReadFields(rec);
      var id := CheckId(rec, taken).id;
      var w := CheckId(rec, taken).warnings;
      assert a == AnalyzeValid(id, w, f, defaultCategory);
      AnalyzeValidRow(id, w, f, defaultCategory);
    }
  }

  lemma AnalyzeValidRow(id: string, w: seq<Warning>, f: Fields, defaultCategory: string)
    ensures var a := AnalyzeValid(id, w, f, defaultCategory);
            RowMatches(a.row, a.template)
  {
  }

  /** A record keeps rows and templates in step. */
  lemma ApplyRows(st: State, a: Analysis)
    requires RowsMatch(st)
    requires a.Valid? ==> RowMatches(a.row, a.template)
    ensures RowsMatch(Apply(st, a))
  {
    var r := Apply(st, a);
    if a.Valid? && !Throws(st, a) {
      assert r.rows == st.rows + [a.row] && r.templates == st.templates + [a.template];
      assert r.rows[|st.rows|] == a.row && r.templates[|st.rows|] == a.template;
    }
  }

  /** Every run pushes one normalised row per template, in the same order,
      each describing the same record as its template. */
  lemma {:induction false} RunRows(recs: seq<Record>, defaultCategory: string)
    ensures RowsMatch(Run(recs, defaultCategory))
  {
    if recs != [] {
      var init := recs[..|recs| - 1];
      RunRows(init, defaultCategory);
      RunStep(recs, defaultCategory);
      var prev := Run(init, defaultCategory);
      if !prev.threw {
        AnalyzeRowMatches(recs[|recs| - 1], prev.taken, defaultCategory);
        ApplyRows(prev, Analyze(recs[|recs| - 1], prev.taken, defaultCategory));
      }
    }
  }

  /** One record only appends: its warnings, errors, rows and template come
      after those of the records before it. */
  lemma ApplyExtends(st: State, a: Analysis)
    ensures var r := Apply(st, a);
            && st.warnings <= r.warnings && st.errors <= r.errors
            && st.rows <= r.rows && st.templates <= r.templates
  {
  }

  /** The warnings, errors, rows and templates of the first `n` records are
      a prefix of the whole run's: every list is in record order. */
  lemma {:induction false} RunExtends(recs: seq<Record>, n: nat, defaultCategory: string)
    requires n <= |recs|
    ensures var p := Run(recs[..n], defaultCategory);
            var r := Run(recs, defaultCategory);
            && p.warnings <= r.warnings && p.errors <= r.errors
            && p.rows <= r.rows && p.templates <= r.templates
    decreases |recs|
  {
    if n < |recs| {
      var init := recs[..|recs| - 1];
      assert init[..n] == recs[..n];
      RunExtends(init, n, defaultCategory);
      RunStep(recs, defaultCategory);
      var prev := Run(init, defaultCategory);
      if !prev.threw {
        ApplyExtends(prev, Analyze(recs[|recs| - 1], prev.taken, defaultCategory));
      }
    } else {
      assert recs[..n] == recs;
    }
  }

  /** A run that does not throw emits no template variable that is an
      inherited name. */
  lemma RunNoInherited(recs: seq<Record>, defaultCategory: string)
    ensures var st := Run(recs, defaultCategory);
            !st.threw ==> forall i, v :: 0 <= i < |st.templates| && v in st.templates[i].variables ==>
                                          v !in InheritedNames
  {
    RunInv(recs, defaultCategory);
  }

  /** Record `n` reaches `ensureVar` with a variable that is an inherited
      name, given the records before it. */
  predicate ThrowsAt(recs: seq<Record>, n: nat, defaultCategory: string)
    requires n < |recs|
  {
    var a := Analyze(recs[n], Run(recs[..n], defaultCategory).taken, defaultCategory);
    a.Valid? && exists v :: v in a.template.variables && v in InheritedNames
  }

  /** A run throws exactly when some valid record uses a variable that is an
      inherited name. */
  lemma {:induction false} RunThrows(recs: seq<Record>, defaultCategory: string)
    ensures Run(recs, defaultCategory).threw <==> exists n :: 0 <= n < |recs| && ThrowsAt(recs, n, defaultCategory)
    decreases |recs|
  {
    if recs != [] {
      RunThrows(recs[..|recs| - 1], defaultCategory);
      RunThrowsStep(recs, defaultCategory);
    }
  }

  lemma RunThrowsStep(recs: seq<Record>, defaultCategory: string)
    requires recs != []
    requires var m := |recs| - 1;
             Run(recs[..m], defaultCategory).threw <==> exists n :: 0 <= n < m && ThrowsAt(recs[..m], n, defaultCategory)
    ensures Run(recs, defaultCategory).threw <==> exists n :: 0 <= n < |recs| && ThrowsAt(recs, n, defaultCategory)
  {
    var m := |recs| - 1;
    var before := exists n :: 0 <= n < m && ThrowsAt(recs, n, defaultCategory);
    var last := ThrowsAt(recs, m, defaultCategory);
    var t0 := Run(recs[..m], defaultCategory).threw;
    var t1 := Run(recs, defaultCategory).threw;
    assert t0 == before by {
      PrefixThrowsAt(recs, m, defaultCategory);
    }
    assert t1 == (t0 || last) by {
      LastThrowsAt(recs, defaultCategory);
      RunLastStep(recs, defaultCategory);
    }
    assert (exists n :: 0 <= n < |recs| && ThrowsAt(recs, n, defaultCategory)) == (before || last) by {
      var p := (n: nat) => n < |recs| && ThrowsAt(recs, n, defaultCategory);
      ExistsSplit(p, m);
      assert forall n: nat :: p(n) == (n < |recs| && ThrowsAt(recs, n, defaultCategory));
    }
  }

  /** Whether an earlier record throws does not depend on the later ones. */
  lemma PrefixThrowsAt(recs: seq<Record>, m: nat, defaultCategory: string)
    requires m <= |recs|
    ensures (exists n :: 0 <= n < m && ThrowsAt(recs, n, defaultCategory))
            == (exists n :: 0 <= n < m && ThrowsAt(recs[..m], n, defaultCategory))
  {
    forall n | 0 <= n < m ensures ThrowsAt(recs, n, defaultCategory) == ThrowsAt(recs[..m], n, defaultCategory) {
      assert recs[..n] == recs[..m][..n];
    }
  }

  lemma LastThrowsAt(recs: seq<Record>, defaultCategory: string)
    requires recs != []
    ensures var m := |recs| - 1;
            var prev := Run(recs[..m], defaultCategory);
            Throws(prev, Analyze(recs[m], prev.taken, defaultCategory)) == ThrowsAt(recs, m, defaultCategory)
  {
    var m := |recs| - 1;
    var prev := Run(recs[..m], defaultCategory);
    var a := Analyze(recs[m], prev.taken, defaultCategory);
    RunInv(recs[..m], defaultCategory);
    AnalyzeSound(recs[m], prev.taken, defaultCategory);
    ThrowsMeaning(prev, a);
  }

  lemma ExistsSplit(p: nat -> bool, m: nat)
    ensures (exists n: nat :: n < m + 1 && p(n)) == ((exists n: nat :: n < m && p(n)) || p(m))
  {
  }

  /** A run that has thrown stays thrown; otherwise the last record throws
      exactly when its variables do. */
  lemma RunLastStep(recs: seq<Record>, defaultCategory: string)
    requires recs != []
    ensures var prev := Run(recs[..|recs| - 1], defaultCategory);
            Run(recs, defaultCategory).threw
              == (prev.threw || Throws(prev, Analyze(recs[|recs| - 1], prev.taken, defaultCategory)))
  {
    RunStep(recs, defaultCategory);
  }

  /** The template a record yields, when it yields one. */
  predicate FromRecord(t: Template, rec: Record, defaultCategory: string) {
    && HasAllFields(ReadFields(rec))
    && t == MakeTemplate(IdSanitize(RawId(rec)), ReadFields(rec), defaultCategory)
  }

  function Yields(defaultCategory: string): (Template, Record) -> bool {
    (t, rec) => FromRecord(t, rec, defaultCategory)
  }

  lemma AnalyzeFromRecord(rec: Record, taken: set<string>, defaultCategory: string)
    requires Analyze(rec, taken, defaultCategory).Valid?
    ensures FromRecord(Analyze(rec, taken, defaultCategory).template, rec, defaultCategory)
  {
    var f := ReadFields(rec);
    assert CheckId(rec, taken).IdAccepted? && MissingLabels(Labeled(f)) == [];
    AnalyzeComplete(rec, taken, defaultCategory);
  }

  /** A fold emits at most one template per record, each related to its
      record when every valid analysis is. */
  lemma {:induction false} FoldTemplates(recs: seq<Record>, analyze: (Record, set<string>) -> Analysis,
                                         p: (Template, Record) -> bool)
    requires forall rec, taken :: analyze(rec, taken).Valid? ==> p(analyze(rec, taken).template, rec)
    ensures |Fold(recs, analyze).templates| <= |recs|
    ensures AllFrom(Fold(recs, analyze).templates, recs, p)
    decreases |recs|
  {
    if recs != [] {
      var n := |recs| - 1;
      var prev := Fold(recs[..n], analyze);
      var a := analyze(recs[n], prev.taken);
      var extra := if !prev.threw && a.Valid? && !Throws(prev, a) then [a.template] else [];
      FoldTemplates(recs[..n], analyze, p);
      FoldLast(recs, analyze);
      ApplyTemplates(prev, a);
      AllFromExtend(prev.templates, extra, recs[..n], recs[n], p);
      assert recs[..n] + [recs[n]] == recs;
    }
  }

  /** The fold of a non-empty list is the fold of all but the last record,
      then the last record applied unless the fold has thrown. */
  lemma FoldLast(recs: seq<Record>, analyze: (Record, set<string>) -> Analysis)
    requires recs != []
    ensures var prev := Fold(recs[..|recs| - 1], analyze);
            Fold(recs, analyze) == if prev.threw then prev else Apply(prev, analyze(recs[|recs| - 1], prev.taken))
  {
  }

  /** Applying an analysis appends its template exactly when it is valid and
      does not throw. */
  lemma ApplyTemplates(st: State, a: Analysis)
    ensures Apply(st, a).templates == st.templates + (if a.Valid? && !Throws(st, a) then [a.template] else [])
  {
  }

  /** Every emitted template comes from one of the records, and there are no
      more templates than records. */
  lemma RunTemplates(recs: seq<Record>, defaultCategory: string)
    ensures |Run(recs, defaultCategory).templates| <= |recs|
    ensures AllFrom(Run(recs, defaultCategory).templates, recs, Yields(defaultCategory))
  {
    var an := Analyzer(defaultCategory);
    var p := Yields(defaultCategory);
    forall rec, taken | an(rec, taken).Valid? ensures p(an(rec, taken).template, rec) {
      AnalyzeFromRecord(rec, taken, defaultCategory);
    }
    FoldTemplates(recs, an, p);
  }

  /** The shape of every emitted template: the category is the FR category
      (so the fallbacks never apply), the subject is the title, and the
      variables are the sorted FR names followed by the sorted EN names the FR
      list lacks. */
  lemma TemplateShape(t: Template, rec: Record, defaultCategory: string)
    requires FromRecord(t, rec, defaultCategory)
    ensures var f := ReadFields(rec);
            var varsFr := TemplateVars(f.template.fr);
            var varsEn := TemplateVars(f.template.en);
            && t.id == IdSanitize(RawId(rec))
            && t.category == f.category.fr
            && t.subject == t.title == f.title
            && t.body == f.template
            && t.variables == varsFr + Filter(varsEn, v => v !in varsFr)
            && StrictlySorted(varsFr) && StrictlySorted(varsEn)
  {
    var f := ReadFields(rec);
    assert Labeled(f)[0].1 == f.category.fr;
    UnionOrder(TemplateVars(f.template.fr), TemplateVars(f.template.en));
  }
}
