/** The global variable catalog `buildOutput` fills: format inference
    (`inferFormat`), example values (`exampleFor`) and `ensureVar`, from
    assets/admin-excel.js. */
module Variables {
  import opened Chars
  import opened Strings
  import opened Sanitize
  import opened VarDesc
  import opened Objects

  // ---------------------------------------------------------------------------
  // inferFormat (assets/admin-excel.js:145-150)

  datatype Format = Number | Time | Date | Text

  /** `/pat/i.test(s)` for a literal pattern `pat`. Under the `i` flag a
      character matches when both upper-case to the same character, and no
      character outside ASCII may match an ASCII one; on the ASCII and
      Latin-1 letters the patterns use, that is comparing lower-case forms. */
  predicate ContainsCi(s: string, pat: string) {
    IndexOf(Lower(s), Lower(pat)).Some?
  }

  /** The occurrence of a lower-case word somewhere in a text. */
  ghost predicate Occurs(s: string, word: string) {
    exists i :: OccursAt(s, word, i)
  }

  function InferFormat(n: string): Format {
    if IsNumberName(n) then Number
    else if ContainsCi(n, "Heure") then Time
    else if IsDateName(n) then Date
    else Text
  }

  lemma ContainsCiMeaning(s: string, pat: string, word: string)
    requires Lower(pat) == word
    ensures ContainsCi(s, pat) <==> Occurs(Lower(s), word)
  {
    var r := IndexOf(Lower(s), word);
    if Occurs(Lower(s), word) {
      var i :| OccursAt(Lower(s), word, i);
      assert r.Some?;
    }
  }

  /** A text holding `word` at `i + k` holds `pre + word` nowhere it would not
      also hold `word`: an occurrence of a longer word containing `word` is an
      occurrence of `word`. */
  lemma OccursInside(s: string, pre: string, word: string, post: string)
    requires Occurs(s, pre + word + post)
    ensures Occurs(s, word)
  {
    var i :| OccursAt(s, pre + word + post, i);
    var j := i + |pre|;
    assert s[j..j + |word|] == (pre + word + post)[|pre|..|pre| + |word|];
    assert OccursAt(s, word, j);
  }

  lemma LowerNumberWords()
    ensures Lower("Montant") == "montant" && Lower("Nb") == "nb" && Lower("Nombre") == "nombre"
  {
  }

  lemma LowerTimeWord()
    ensures Lower("Heure") == "heure"
  {
  }

  lemma LowerDateWords()
    ensures Lower("Date") == "date" && Lower("D\U{E9}lai") == "d\U{E9}lai"
    ensures Lower("NouvelleDate") == "nouvelledate" && Lower("DateInitiale") == "dateinitiale"
  {
  }

  predicate IsNumberName(n: string) {
    ContainsCi(n, "Montant") || ContainsCi(n, "Nb") || ContainsCi(n, "Nombre")
  }

  predicate IsDateName(n: string) {
    ContainsCi(n, "Date") || ContainsCi(n, "D\U{E9}lai") || ContainsCi(n, "NouvelleDate")
      || ContainsCi(n, "DateInitiale")
  }

  lemma NumberWords(n: string)
    ensures IsNumberName(n) <==>
              Occurs(Lower(n), "montant") || Occurs(Lower(n), "nb") || Occurs(Lower(n), "nombre")
  {
    LowerNumberWords();
    ContainsCiMeaning(n, "Montant", "montant");
    ContainsCiMeaning(n, "Nb", "nb");
    ContainsCiMeaning(n, "Nombre", "nombre");
  }

  lemma TimeWord(n: string)
    ensures ContainsCi(n, "Heure") <==> Occurs(Lower(n), "heure")
  {
    LowerTimeWord();
    ContainsCiMeaning(n, "Heure", "heure");
  }

  /** The two long date patterns add nothing, since each contains "date". */
  lemma DateWords(n: string)
    ensures IsDateName(n) <==> Occurs(Lower(n), "date") || Occurs(Lower(n), "d\U{E9}lai")
  {
    LowerDateWords();
    ContainsCiMeaning(n, "Date", "date");
    ContainsCiMeaning(n, "D\U{E9}lai", "d\U{E9}lai");
    ContainsCiMeaning(n, "NouvelleDate", "nouvelledate");
    ContainsCiMeaning(n, "DateInitiale", "dateinitiale");
    LongDateWords(Lower(n));
  }

  lemma LongDateWords(l: string)
    ensures Occurs(l, "nouvelledate") ==> Occurs(l, "date")
    ensures Occurs(l, "dateinitiale") ==> Occurs(l, "date")
  {
    if Occurs(l, "nouvelledate") {
      assert "nouvelledate" == "nouvelle" + "date" + "";
      OccursInside(l, "nouvelle", "date", "");
    }
    if Occurs(l, "dateinitiale") {
      assert "dateinitiale" == "" + "date" + "initiale";
      OccursInside(l, "", "date", "initiale");
    }
  }

  /** The number test is made before the time test, and both before the
      date test. */
  lemma InferFormatSpec(n: string)
    ensures var l := Lower(n);
            && (InferFormat(n) == Number <==> Occurs(l, "montant") || Occurs(l, "nb") || Occurs(l, "nombre"))
            && (InferFormat(n) == Time <==>
                  !(Occurs(l, "montant") || Occurs(l, "nb") || Occurs(l, "nombre")) && Occurs(l, "heure"))
            && (InferFormat(n) == Date <==>
                  !(Occurs(l, "montant") || Occurs(l, "nb") || Occurs(l, "nombre")) && !Occurs(l, "heure")
                  && (Occurs(l, "date") || Occurs(l, "d\U{E9}lai")))
  {
    NumberWords(n);
    TimeWord(n);
    DateWords(n);
  }

  /** Any name holding "montant", in any case, is a number. */
  lemma MontantIsNumber(n: string, i: nat)
    requires OccursAt(Lower(n), "montant", i)
    ensures InferFormat(n) == Number
  {
    InferFormatSpec(n);
  }

  /** The catalog is keyed by canonical names, made of `[a-z0-9_]`, so the
      pattern "Délai" never matches a key. */
  lemma DelaiNeverMatches(key: string)
    requires forall c :: c in key ==> IsIdChar(c)
    ensures !ContainsCi(key, "D\U{E9}lai")
  {
    LowerOfIdChars(key);
    LowerDateWords();
    ContainsCiMeaning(key, "D\U{E9}lai", "d\U{E9}lai");
    assert "d\U{E9}lai"[1] !in key;
    AbsentLetter(key, "d\U{E9}lai", 1);
  }

  /** A word with a letter the text lacks does not occur in it. */
  lemma AbsentLetter(s: string, word: string, k: nat)
    requires k < |word| && word[k] !in s
    ensures !Occurs(s, word)
  {
  }

  // ---------------------------------------------------------------------------
  // exampleFor (assets/admin-excel.js:151)

  function ExampleFor(f: Format): (r: string)
    ensures r != []
  {
    match f
    case Number => "0"
    case Time => "17:00"
    case Date => "2025-01-01"
    case Text => "Exemple"
  }

  /** Different formats have different examples. */
  lemma ExampleForInjective(f: Format, g: Format)
    requires ExampleFor(f) == ExampleFor(g)
    ensures f == g
  {
    assert ExampleFor(f)[0] == ExampleFor(g)[0];
    if ExampleFor(f) == "2025-01-01" {
      assert ExampleFor(f)[1] == '0';
    }
  }

  // ---------------------------------------------------------------------------
  // ensureVar (assets/admin-excel.js:287-304)

  datatype Bilingual = Bilingual(fr: string, en: string)

  datatype Entry = Entry(description: Bilingual, format: Format, example: string)

  /** The global catalog, keyed by variable name. */
  type Catalog = map<string, Entry>

  /** What every catalog entry ends up with: both descriptions and an
      example non-empty, and the format inferred from the key. */
  predicate WellFormedEntry(key: string, e: Entry) {
    e.description.fr != [] && e.description.en != [] && e.example != [] && e.format == InferFormat(key)
  }

  ghost predicate WellFormedCatalog(c: Catalog) {
    forall k :: k in c ==> WellFormedEntry(k, c[k])
  }

  /** `descs.get(key)?.description`, with a missing entry read as empty. */
  function DescriptionIn(descs: map<string, Desc>, key: string): string {
    if key in descs then descs[key].description else []
  }

  /** `descs.get(key)?.defaultValue`, with a missing entry read as empty. */
  function DefaultIn(descs: map<string, Desc>, key: string): string {
    if key in descs then descs[key].defaultValue else []
  }

  /** Used when a variable has no description in a language. */
  function FallbackFr(key: string): string { "Valeur pour " + key }
  function FallbackEn(key: string): string { "Value for " + key }

  /** `variables[key]` on a key the catalog object lacks but inherits from
      `Object.prototype` (of the canonical names, only `constructor`). The
      inherited property is truthy, so `ensureVar` creates no entry, and
      reading its `description` then throws a `TypeError`. */
  predicate InheritsKey(c: Catalog, key: string) {
    key != [] && Get(c, key).Inherited?
  }

  /** The update `ensureVar(key)` makes, with the FR and EN description maps
      of the current record, when the key is an own entry or reads as
      `undefined`: a new key starts blank; the format is re-inferred; a
      non-empty description or default value of this record overwrites the
      stored one (FR before EN for the default); what is still empty gets its
      fallback. */
  function EnsureEntry(c: Catalog, key: string, fr: map<string, Desc>, en: map<string, Desc>): (r: Catalog)
    requires key != [] && !InheritsKey(c, key)
    ensures r.Keys == c.Keys + {key} && WellFormedEntry(key, r[key])
    ensures forall k :: k in c && k != key ==> r[k] == c[k]
    ensures DescriptionIn(fr, key) != [] ==> r[key].description.fr == DescriptionIn(fr, key)
    ensures DescriptionIn(en, key) != [] ==> r[key].description.en == DescriptionIn(en, key)
    ensures DefaultIn(fr, key) != [] ==> r[key].example == DefaultIn(fr, key)
    ensures DefaultIn(fr, key) == [] && DefaultIn(en, key) != [] ==> r[key].example == DefaultIn(en, key)
    ensures key !in c && DescriptionIn(fr, key) == [] ==> r[key].description.fr == FallbackFr(key)
    ensures key !in c && DescriptionIn(en, key) == [] ==> r[key].description.en == FallbackEn(key)
    ensures key !in c && DefaultIn(fr, key) == [] && DefaultIn(en, key) == [] ==>
              r[key].example == ExampleFor(InferFormat(key))
  {
    var old0 := if key in c then c[key] else Entry(Bilingual([], []), Text, []);
    var format := InferFormat(key);
    var dFr := if DescriptionIn(fr, key) != [] then DescriptionIn(fr, key) else old0.description.fr;
    var dEn := if DescriptionIn(en, key) != [] then DescriptionIn(en, key) else old0.description.en;
    var sample := if DefaultIn(fr, key) != [] then DefaultIn(fr, key) else DefaultIn(en, key);
    var example := if sample != [] then sample
                   else if old0.example != [] then old0.example
                   else ExampleFor(format);
    c[key := Entry(Bilingual(if dFr != [] then dFr else FallbackFr(key),
                             if dEn != [] then dEn else FallbackEn(key)),
                   format, example)]
  }

  /** `ensureVar(key)`: an empty key changes nothing; a key the catalog
      inherits throws; any other key gets its entry updated. */
  function EnsureVar(c: Catalog, key: string, fr: map<string, Desc>, en: map<string, Desc>): (r: Option<Catalog>)
    ensures key == [] ==> r == Some(c)
    ensures r.None? <==> InheritsKey(c, key)
    ensures r.Some? && key != [] ==> r.value == EnsureEntry(c, key, fr, en)
  {
    if key == [] then Some(c)
    else if InheritsKey(c, key) then None
    else Some(EnsureEntry(c, key, fr, en))
  }

  /** What this record does not supply is kept from the stored entry: a
      description or example already present survives a record that has
      none. */
  lemma EnsureVarKeeps(c: Catalog, key: string, fr: map<string, Desc>, en: map<string, Desc>)
    requires key in c && WellFormedEntry(key, c[key])
    ensures EnsureVar(c, key, fr, en).Some?
    ensures DescriptionIn(fr, key) == [] ==> EnsureVar(c, key, fr, en).value[key].description.fr == c[key].description.fr
    ensures DescriptionIn(en, key) == [] ==> EnsureVar(c, key, fr, en).value[key].description.en == c[key].description.en
    ensures DefaultIn(fr, key) == [] && DefaultIn(en, key) == [] ==>
              EnsureVar(c, key, fr, en).value[key].example == c[key].example
  {
  }

  /** Calling `ensureVar` twice with the same record changes nothing more. */
  lemma EnsureVarIdempotent(c: Catalog, key: string, fr: map<string, Desc>, en: map<string, Desc>)
    requires EnsureVar(c, key, fr, en).Some?
    ensures EnsureVar(EnsureVar(c, key, fr, en).value, key, fr, en) == EnsureVar(c, key, fr, en)
  {
    var c1 := EnsureVar(c, key, fr, en).value;
    if key != [] {
      var c2 := EnsureEntry(c1, key, fr, en);
      assert c2[key] == c1[key];
      assert c2.Keys == c1.Keys;
      assert c2 == c1;
      assert EnsureVar(c1, key, fr, en) == Some(c2);
    }
  }

  /** `keys.forEach(ensureVar)`: it throws exactly when some key is one the
      catalog inherits; otherwise it adds exactly the non-empty keys, leaves
      every other entry alone, leaves each key's entry well formed, and each
      key ends with the description and default value the record gives it. */
  function EnsureVars(c: Catalog, keys: seq<string>, fr: map<string, Desc>, en: map<string, Desc>): (r: Option<Catalog>)
    ensures r.None? <==> exists k :: k in keys && InheritsKey(c, k)
    ensures r.Some? ==> r.value.Keys == c.Keys + (set k | k in keys && k != [])
    ensures r.Some? ==> forall k :: k in c && (k !in keys || k == []) ==> r.value[k] == c[k]
    ensures r.Some? ==> forall k :: k in keys && k != [] ==> WellFormedEntry(k, r.value[k])
    ensures r.Some? ==> forall k :: k in keys && k != [] ==> Supplied(fr, en, k, r.value[k])
    decreases |keys|
  {
    if keys == [] then Some(c)
    else
      var n := |keys| - 1;
      assert keys == keys[..n] + [keys[n]];
      match EnsureVars(c, keys[..n], fr, en)
      case None => None
      case Some(prev) =>
        EnsureVarsThrows(c, keys[..n], keys[n], fr, en, prev);
        if EnsureVar(prev, keys[n], fr, en).None? then None
        else
          EnsureVarsKeys(c, keys[..n], keys[n], fr, en, prev);
          EnsureVarsKept(c, keys[..n], keys[n], fr, en, prev);
          EnsureVarsFormed(keys[..n], keys[n], fr, en, prev);
          EnsureVarsSupplied(keys[..n], keys[n], fr, en, prev);
          EnsureVar(prev, keys[n], fr, en)
  }

  /** The entry holds the record's non-empty description in each language
      and its default value (FR before EN) when it has one. */
  predicate Supplied(fr: map<string, Desc>, en: map<string, Desc>, k: string, e: Entry) {
    && (DescriptionIn(fr, k) != [] ==> e.description.fr == DescriptionIn(fr, k))
    && (DescriptionIn(en, k) != [] ==> e.description.en == DescriptionIn(en, k))
    && (DefaultIn(fr, k) != [] ==> e.example == DefaultIn(fr, k))
    && (DefaultIn(fr, k) == [] && DefaultIn(en, k) != [] ==> e.example == DefaultIn(en, k))
  }

  /** The steps of `EnsureVars`: what it promises for the first keys carries
      over to the catalog with the next key ensured. */
  lemma EnsureVarsThrows(c: Catalog, init: seq<string>, last: string,
                         fr: map<string, Desc>, en: map<string, Desc>, prev: Catalog)
    requires prev.Keys == c.Keys + (set k | k in init && k != [])
    requires !exists k :: k in init && InheritsKey(c, k)
    ensures EnsureVar(prev, last, fr, en).None? <==> exists k :: k in init + [last] && InheritsKey(c, k)
  {
    assert forall k :: k in init + [last] <==> k in init || k == last;
    if last != [] && last in init {
      assert !InheritsKey(c, last);
    }
  }

  lemma EnsureVarsKeys(c: Catalog, init: seq<string>, last: string,
                       fr: map<string, Desc>, en: map<string, Desc>, prev: Catalog)
    requires prev.Keys == c.Keys + (set k | k in init && k != [])
    requires EnsureVar(prev, last, fr, en).Some?
    ensures EnsureVar(prev, last, fr, en).value.Keys == c.Keys + (set k | k in init + [last] && k != [])
  {
    var r := EnsureVar(prev, last, fr, en).value;
    assert r.Keys == prev.Keys + (if last == [] then {} else {last});
    NonEmptySnoc(init, last);
  }

  /** The non-empty members of `init + [last]`. */
  lemma NonEmptySnoc(init: seq<string>, last: string)
    ensures (set k | k in init + [last] && k != [])
            == (set k | k in init && k != []) + (if last == [] then {} else {last})
  {
    assert forall k :: k in init + [last] <==> k in init || k == last;
  }

  lemma EnsureVarsKept(c: Catalog, init: seq<string>, last: string,
                       fr: map<string, Desc>, en: map<string, Desc>, prev: Catalog)
    requires c.Keys <= prev.Keys
    requires forall k :: k in c && (k !in init || k == []) ==> prev[k] == c[k]
    requires EnsureVar(prev, last, fr, en).Some?
    ensures forall k :: k in c && (k !in init + [last] || k == []) ==> EnsureVar(prev, last, fr, en).value[k] == c[k]
  {
    assert forall k :: k in init + [last] <==> k in init || k == last;
  }

  lemma EnsureVarsFormed(init: seq<string>, last: string,
                         fr: map<string, Desc>, en: map<string, Desc>, prev: Catalog)
    requires forall k :: k in init && k != [] ==> k in prev && WellFormedEntry(k, prev[k])
    requires EnsureVar(prev, last, fr, en).Some?
    ensures forall k :: k in init + [last] && k != [] ==> WellFormedEntry(k, EnsureVar(prev, last, fr, en).value[k])
  {
    assert forall k :: k in init + [last] <==> k in init || k == last;
  }

  lemma EnsureVarsSupplied(init: seq<string>, last: string,
                           fr: map<string, Desc>, en: map<string, Desc>, prev: Catalog)
    requires forall k :: k in init && k != [] ==> k in prev && Supplied(fr, en, k, prev[k])
    requires EnsureVar(prev, last, fr, en).Some?
    ensures forall k :: k in init + [last] && k != [] ==> Supplied(fr, en, k, EnsureVar(prev, last, fr, en).value[k])
  {
    assert forall k :: k in init + [last] <==> k in init || k == last;
  }

  /** `ensureVar` keeps the catalog well formed. */
  lemma EnsureVarsWellFormed(c: Catalog, keys: seq<string>, fr: map<string, Desc>, en: map<string, Desc>)
    requires WellFormedCatalog(c) && EnsureVars(c, keys, fr, en).Some?
    ensures WellFormedCatalog(EnsureVars(c, keys, fr, en).value)
  {
    var r := EnsureVars(c, keys, fr, en).value;
    forall k | k in r ensures WellFormedEntry(k, r[k]) {
      if k !in keys {
        assert k in c;
      }
    }
  }

  /** No catalog key is a name every object inherits. */
  ghost predicate NoInheritedKeys(c: Catalog) {
    forall k :: k in c ==> k !in InheritedNames
  }

  /** `ensureVar` never stores an inherited name: such a key either is not
      reached or throws. */
  lemma EnsureVarsNoInherited(c: Catalog, keys: seq<string>, fr: map<string, Desc>, en: map<string, Desc>)
    requires NoInheritedKeys(c) && EnsureVars(c, keys, fr, en).Some?
    ensures NoInheritedKeys(EnsureVars(c, keys, fr, en).value)
  {
    var r := EnsureVars(c, keys, fr, en).value;
    forall k | k in r ensures k !in InheritedNames {
      if k !in c {
        assert k in keys && k != [] && !InheritsKey(c, k);
      }
    }
  }
}
