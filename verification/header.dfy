/** Header resolution and row projection: `rowsToObjects` of
    assets/admin-excel.js. A spreadsheet arrives as rows of text cells; an
    absent cell is the empty string, which the source treats exactly like
    `null`, `undefined` and `''`. */
module Header {
  import opened Chars
  import opened Strings
  import opened Sanitize

  type Row = seq<string>

  /** One data row keyed by its header cells (the source's plain object). */
  type Record = map<string, string>

  /** `REQUIRED_KEYS`. */
  const RequiredKeys: seq<string> := [
    "id", "category_en", "category_fr", "description_en", "description_fr",
    "title_en", "title_fr", "template_en", "template_fr",
    "variables_description_en", "variables_description_fr"]

  /** The synonym table `H`, from normalised header text to canonical key. */
  const Synonyms: map<string, string> := map[
    "id" := "id",
    "category en" := "category_en", "category fr" := "category_fr",
    "categorie en" := "category_en", "categorie fr" := "category_fr",
    "cat\U{E9}gorie en" := "category_en", "cat\U{E9}gorie fr" := "category_fr",
    "description en" := "description_en", "description fr" := "description_fr",
    "title en" := "title_en", "title fr" := "title_fr",
    "titre en" := "title_en", "titre fr" := "title_fr",
    "template en" := "template_en", "template fr" := "template_fr",
    "mod\U{E8}le en" := "template_en", "mod\U{E8}le fr" := "template_fr",
    "variables description en" := "variables_description_en",
    "variables description fr" := "variables_description_fr",
    "variables_description_en" := "variables_description_en",
    "variables_description_fr" := "variables_description_fr"]

  /** Every value of the table is one of the required keys. */
  lemma SynonymsAreRequiredKeys()
    ensures forall n :: n in Synonyms ==> Synonyms[n] in RequiredKeys
  {
  }

  /** A normalised header never contains `_`, so the two entries of the table
      spelled with underscores can never be looked up. */
  lemma UnderscoreSynonymsUnreachable(cell: string)
    ensures NormKey(cell) != "variables_description_en"
    ensures NormKey(cell) != "variables_description_fr"
  {
    assert '_' in "variables_description_en";
    assert '_' in "variables_description_fr";
  }

  /** A cell made of white space only. */
  predicate IsBlankText(c: string) {
    c == [] || (IsSpace(c[0]) && IsBlankText(c[1..]))
  }

  /** A row whose every cell is white space only. */
  predicate Blank(row: Row) {
    row == [] || (IsBlankText(row[0]) && Blank(row[1..]))
  }

  lemma {:induction false} IsBlankTextMeaning(c: string)
    ensures IsBlankText(c) <==> forall ch :: ch in c ==> IsSpace(ch)
  {
    if c != [] {
      IsBlankTextMeaning(c[1..]);
      assert c == [c[0]] + c[1..];
    }
  }

  /** The source's test: a row is blank when every cell trims to `''`. */
  lemma {:induction false} BlankIffTrimsEmpty(row: Row)
    ensures Blank(row) <==> forall c :: c in row ==> Trim(c) == ""
  {
    if row != [] {
      BlankIffTrimsEmpty(row[1..]);
      IsBlankTextMeaning(row[0]);
      TrimEmpty(row[0]);
      assert IsBlankText(row[0]) <==> Trim(row[0]) == "";
      ForallSplit(row, c => Trim(c) == "");
    }
  }

  /** The canonical key of one trimmed header cell: the table's entry for its
      normalised text, else its `canonicalKey`. */
  function MapCell(raw: string): string {
    var n := NormKey(raw);
    if n in Synonyms then Synonyms[n] else CanonicalKey(n)
  }

  /** The row's cells, trimmed. */
  function RawHeader(row: Row): (r: seq<string>)
    ensures |r| == |row|
  {
    TrimEach(row)
  }

  /** The canonical key of each header cell, column by column. */
  function Mapped(row: Row): (r: seq<string>)
    ensures |r| == |row|
  {
    var raw := RawHeader(row);
    seq(|row|, k requires 0 <= k < |row| => MapCell(raw[k]))
  }

  /** Cell `k` of the trimmed header is cell `k` of the row, trimmed, and
      key `k` of the mapped header is that cell's canonical key. */
  lemma HeaderCells(row: Row)
    ensures forall k :: 0 <= k < |row| ==>
              RawHeader(row)[k] == Trim(row[k]) && Mapped(row)[k] == MapCell(Trim(row[k]))
  {
  }

  /** The required keys absent from the row's canonical key set, in the
      order of `RequiredKeys`. The source builds that set by applying
      `canonicalKey` to every mapped cell; every mapped cell is already a
      canonical key (`MappedAreCanonical`), so the set is the mapped header. */
  function MissingKeys(row: Row): (r: seq<string>)
    ensures |r| <= |RequiredKeys|
  {
    Missing(RequiredKeys, Mapped(row))
  }

  /** The keys not in `present`, in order. */
  function Missing(keys: seq<string>, present: seq<string>): (r: seq<string>)
    ensures |r| <= |keys|
  {
    if keys == [] then []
    else (if keys[0] in present then [] else [keys[0]]) + Missing(keys[1..], present)
  }

  lemma {:induction false} MissingMeaning(keys: seq<string>, present: seq<string>, k: string)
    ensures k in Missing(keys, present) <==> k in keys && k !in present
  {
    if keys != [] {
      MissingMeaning(keys[1..], present, k);
      assert keys == [keys[0]] + keys[1..];
    }
  }

  /** Identifier-like text is a canonical key. */
  lemma IdLikeIsCanonicalKey(s: string)
    requires forall c :: c in s ==> IsIdChar(c)
    requires NoDouble(s, '_')
    ensures IsCanonicalKey(s)
  {
  }

  lemma RequiredKeysCanonical1()
    ensures IsCanonicalKey("id") && IsCanonicalKey("category_en") && IsCanonicalKey("category_fr")
  {
    IdLikeIsCanonicalKey("id");
    IdLikeIsCanonicalKey("category_en");
    IdLikeIsCanonicalKey("category_fr");
  }

  lemma RequiredKeysCanonical2()
    ensures IsCanonicalKey("description_en") && IsCanonicalKey("description_fr")
  {
    IdLikeIsCanonicalKey("description_en");
    IdLikeIsCanonicalKey("description_fr");
  }

  lemma RequiredKeysCanonical3()
    ensures IsCanonicalKey("title_en") && IsCanonicalKey("title_fr")
  {
    IdLikeIsCanonicalKey("title_en");
    IdLikeIsCanonicalKey("title_fr");
  }

  lemma RequiredKeysCanonical4()
    ensures IsCanonicalKey("template_en") && IsCanonicalKey("template_fr")
  {
    IdLikeIsCanonicalKey("template_en");
    IdLikeIsCanonicalKey("template_fr");
  }

  lemma RequiredKeysCanonical5()
    ensures IsCanonicalKey("variables_description_en")
  {
    IdLikeIsCanonicalKey("variables_description_en");
  }

  lemma RequiredKeysCanonical6()
    ensures IsCanonicalKey("variables_description_fr")
  {
    IdLikeIsCanonicalKey("variables_description_fr");
  }

  lemma RequiredKeysAreCanonical()
    ensures forall k :: k in RequiredKeys ==> IsCanonicalKey(k)
  {
    RequiredKeysCanonical1();
    RequiredKeysCanonical2();
    RequiredKeysCanonical3();
    RequiredKeysCanonical4();
    RequiredKeysCanonical5();
    RequiredKeysCanonical6();
  }

  /** Every mapped header cell is a fixed point of `canonicalKey`. */
  lemma MappedAreCanonical(row: Row, m: string)
    requires m in Mapped(row)
    ensures CanonicalKey(m) == m
  {
    var raw := RawHeader(row);
    var k :| 0 <= k < |row| && Mapped(row)[k] == m;
    assert m == MapCell(raw[k]);
    var n := NormKey(raw[k]);
    if n in Synonyms {
      SynonymsAreRequiredKeys();
      RequiredKeysAreCanonical();
    }
    CanonicalKeyOfCanonical(m);
  }

  /** A required key is missing exactly when no mapped header cell has it as
      its canonical key. */
  lemma MissingKeysMeaning(row: Row, k: string)
    ensures k in MissingKeys(row) <==> k in RequiredKeys && forall m :: m in Mapped(row) ==> CanonicalKey(m) != k
  {
    MissingMeaning(RequiredKeys, Mapped(row), k);
    forall m | m in Mapped(row) ensures CanonicalKey(m) == m {
      MappedAreCanonical(row, m);
    }
  }

  /** A row examined as a possible header. */
  datatype Attempt = Attempt(index: nat, rawHeader: seq<string>, mapped: seq<string>, missing: seq<string>)

  function AttemptAt(rows: seq<Row>, i: nat): Attempt
    requires i < |rows|
  {
    Attempt(i, RawHeader(rows[i]), Mapped(rows[i]), MissingKeys(rows[i]))
  }

  /** One entry per row from `from` on: no attempt for a blank row, else the
      row's attempt. */
  function CandidatesFrom(rows: seq<Row>, from: nat): (r: seq<Option<Attempt>>)
    requires from <= |rows|
    ensures |r| == |rows| - from
    ensures forall i :: 0 <= i < |r| ==> (r[i].None? <==> Blank(rows[from + i]))
    ensures forall i :: 0 <= i < |r| && r[i].Some? ==> r[i].value.index == from + i
    decreases |rows| - from
  {
    if from == |rows| then []
    else
      var c := if Blank(rows[from]) then None else Some(AttemptAt(rows, from));
      assert c.Some? ==> c.value.index == from;
      var rest := CandidatesFrom(rows, from + 1);
      assert forall i :: 0 < i < |rest| + 1 ==> ([c] + rest)[i] == rest[i - 1];
      [c] + rest
  }

  function Candidates(rows: seq<Row>): (r: seq<Option<Attempt>>)
    ensures |r| == |rows|
    ensures forall i :: 0 <= i < |rows| ==> (r[i].None? <==> Blank(rows[i]))
    ensures forall i :: 0 <= i < |rows| && r[i].Some? ==> r[i].value.index == i
  {
    CandidatesFrom(rows, 0)
  }

  /** The candidate of a non-blank row is that row's attempt. */
  lemma {:induction false} CandidateIsAttempt(rows: seq<Row>, from: nat, i: nat)
    requires from <= i < |rows| && !Blank(rows[i])
    ensures CandidatesFrom(rows, from)[i - from] == Some(AttemptAt(rows, i))
    decreases i - from
  {
    if from < i {
      CandidateIsAttempt(rows, from + 1, i);
    }
  }

  /** A non-blank row that covers every required key. */
  predicate Complete(o: Option<Attempt>) {
    o.Some? && o.value.missing == []
  }

  /** The attempts of the candidates at or after `from`, in order. */
  function AttemptsFrom(cands: seq<Option<Attempt>>, from: nat): (r: seq<Attempt>)
    requires from <= |cands|
    ensures forall a :: a in r ==> exists j :: from <= j < |cands| && cands[j] == Some(a)
    ensures forall j :: from <= j < |cands| && cands[j].Some? ==> cands[j].value in r
    decreases |cands| - from
  {
    if from == |cands| then []
    else
      var rest := AttemptsFrom(cands, from + 1);
      if cands[from].None? then rest else [cands[from].value] + rest
  }

  /** The attempts appear in row order. */
  lemma {:induction false} AttemptsFromOrdered(cands: seq<Option<Attempt>>, from: nat, k: nat, l: nat)
    requires from <= |cands|
    requires forall j :: 0 <= j < |cands| && cands[j].Some? ==> cands[j].value.index == j
    requires k < l < |AttemptsFrom(cands, from)|
    ensures AttemptsFrom(cands, from)[k].index < AttemptsFrom(cands, from)[l].index
    decreases |cands| - from
  {
    var rest := AttemptsFrom(cands, from + 1);
    if cands[from].None? {
      AttemptsFromOrdered(cands, from + 1, k, l);
    } else if k == 0 {
      assert AttemptsFrom(cands, from)[l] in rest;
    } else {
      AttemptsFromOrdered(cands, from + 1, k - 1, l - 1);
    }
  }

  datatype Search = Found(index: nat, header: seq<string>) | NotFound(attempts: seq<Attempt>)

  /** The loop over candidate rows: stops at the first complete one;
      otherwise collects the attempt of every non-blank row. */
  function FindHeader(cands: seq<Option<Attempt>>, from: nat): (r: Search)
    requires from <= |cands|
    ensures r.Found? ==> from <= r.index < |cands| && Complete(cands[r.index])
                         && r.header == cands[r.index].value.mapped
    ensures r.Found? ==> forall j :: from <= j < r.index ==> !Complete(cands[j])
    ensures r.NotFound? ==> forall j :: from <= j < |cands| ==> !Complete(cands[j])
    ensures r.NotFound? ==> r.attempts == AttemptsFrom(cands, from)
    decreases |cands| - from
  {
    if from == |cands| then NotFound([])
    else
      match cands[from]
      case None => FindHeader(cands, from + 1)
      case Some(a) =>
        if a.missing == [] then Found(from, a.mapped)
        else
          match FindHeader(cands, from + 1)
          case Found(i, h) => Found(i, h)
          case NotFound(atts) => NotFound([a] + atts)
  }

  /** The position of the first element of the attempts after a stable
      sort by the number of missing keys: the fewest missing, the earliest on
      ties. */
  function BestIndex(atts: seq<Attempt>): (k: nat)
    requires atts != []
    ensures k < |atts|
    ensures forall j :: 0 <= j < |atts| ==> |atts[k].missing| <= |atts[j].missing|
    ensures forall j :: 0 <= j < k ==> |atts[k].missing| < |atts[j].missing|
  {
    if |atts| == 1 then 0
    else
      var t := BestIndex(atts[1..]);
      if |atts[t + 1].missing| < |atts[0].missing| then t + 1 else 0
  }

  /** `attempts.sort((a, b) => a.missing.length - b.missing.length)[0]`. */
  function Best(atts: seq<Attempt>): (r: Option<Attempt>)
    ensures r.None? <==> atts == []
    ensures r.Some? ==> r.value == atts[BestIndex(atts)]
  {
    if atts == [] then None else Some(atts[BestIndex(atts)])
  }

  /** The value of column `c` of the trimmed cells; `''` past the end of
      the row. */
  function CellAt(cells: seq<string>, c: nat): string {
    if c < |cells| then cells[c] else ""
  }

  /** Zips the header keys with the trimmed cells of one row. Columns with
      an empty key are skipped. */
  function Zip(header: seq<string>, cells: seq<string>): (r: Record)
    ensures forall k :: k in r <==> k != "" && k in header
    decreases |header|
  {
    if header == [] then map[]
    else
      var n := |header| - 1;
      assert header == header[..n] + [header[n]];
      var init := Zip(header[..n], cells);
      if header[n] == "" then init else init[header[n] := CellAt(cells, n)]
  }

  /** A key repeated in the header takes the value of its last column. */
  lemma {:induction false} ZipLastColumnWins(header: seq<string>, cells: seq<string>, c: nat)
    requires c < |header| && header[c] != ""
    requires forall d :: c < d < |header| ==> header[d] != header[c]
    ensures header[c] in Zip(header, cells) && Zip(header, cells)[header[c]] == CellAt(cells, c)
    decreases |header|
  {
    var n := |header| - 1;
    var h := header[..n];
    if c < n {
      assert h[c] == header[c];
      assert forall d :: c < d < |h| ==> h[d] == header[d];
      ZipLastColumnWins(h, cells, c);
      assert header[n] != header[c];
    }
  }

  /** The record of one data row: its trimmed cells keyed by the header. */
  function RowRecord(header: seq<string>, row: Row): Record {
    Zip(header, RawHeader(row))
  }

  /** A data row's value under a header key is its cell in the last column
      with that key, trimmed, or `''` when the row is shorter. */
  lemma RowRecordValue(header: seq<string>, row: Row, c: nat)
    requires c < |header| && header[c] != ""
    requires forall d :: c < d < |header| ==> header[d] != header[c]
    ensures header[c] in RowRecord(header, row)
    ensures RowRecord(header, row)[header[c]] == if c < |row| then Trim(row[c]) else ""
  {
    ZipLastColumnWins(header, RawHeader(row), c);
    HeaderCells(row);
  }

  /** The indices of the non-blank rows at or after `from`, in order. */
  function NonBlankFrom(rows: seq<Row>, from: nat): (r: seq<nat>)
    requires from <= |rows|
    ensures forall k :: 0 <= k < |r| ==> from <= r[k] < |rows| && !Blank(rows[r[k]])
    ensures forall k, l :: 0 <= k < l < |r| ==> r[k] < r[l]
    ensures forall j :: from <= j < |rows| && !Blank(rows[j]) ==> j in r
    decreases |rows| - from
  {
    if from == |rows| then []
    else if Blank(rows[from]) then NonBlankFrom(rows, from + 1)
    else [from] + NonBlankFrom(rows, from + 1)
  }

  /** The records of the non-blank rows at or after `from`. */
  function Project(rows: seq<Row>, from: nat, header: seq<string>): (r: seq<Record>)
    requires from <= |rows|
    decreases |rows| - from
  {
    if from == |rows| then []
    else if Blank(rows[from]) then Project(rows, from + 1, header)
    else [RowRecord(header, rows[from])] + Project(rows, from + 1, header)
  }

  /** Each non-blank row after the header gives exactly one record, in order. */
  lemma ProjectOnePerRow(rows: seq<Row>, from: nat, header: seq<string>)
    requires from <= |rows|
    ensures |Project(rows, from, header)| == |NonBlankFrom(rows, from)|
    ensures forall k :: 0 <= k < |Project(rows, from, header)| ==>
              Project(rows, from, header)[k] == RowRecord(header, rows[NonBlankFrom(rows, from)[k]])
  {
    ProjectLength(rows, from, header);
    ProjectEntries(rows, from, header);
  }

  lemma {:induction false} ProjectLength(rows: seq<Row>, from: nat, header: seq<string>)
    requires from <= |rows|
    ensures |Project(rows, from, header)| == |NonBlankFrom(rows, from)|
    decreases |rows| - from
  {
    if from < |rows| {
      ProjectLength(rows, from + 1, header);
      if Blank(rows[from]) {
        assert Project(rows, from, header) == Project(rows, from + 1, header);
        assert NonBlankFrom(rows, from) == NonBlankFrom(rows, from + 1);
      } else {
        assert |Project(rows, from, header)| == 1 + |Project(rows, from + 1, header)|;
        assert |NonBlankFrom(rows, from)| == 1 + |NonBlankFrom(rows, from + 1)|;
      }
    }
  }

  /** Record `k` of `recs` is the record of row `idx[k]`. */
  ghost predicate EntriesMatch(recs: seq<Record>, idx: seq<nat>, rows: seq<Row>, header: seq<string>) {
    forall k :: 0 <= k < |recs| && k < |idx| ==> idx[k] < |rows| && recs[k] == RowRecord(header, rows[idx[k]])
  }

  lemma EntriesCons(recs: seq<Record>, idx: seq<nat>, rows: seq<Row>, header: seq<string>, i: nat)
    requires EntriesMatch(recs, idx, rows, header) && i < |rows|
    ensures EntriesMatch([RowRecord(header, rows[i])] + recs, [i] + idx, rows, header)
  {
    var r := [RowRecord(header, rows[i])] + recs;
    var m := [i] + idx;
    forall k | 0 <= k < |r| && k < |m| ensures m[k] < |rows| && r[k] == RowRecord(header, rows[m[k]]) {
      if k > 0 {
        assert r[k] == recs[k - 1] && m[k] == idx[k - 1];
      }
    }
  }

  lemma {:induction false} ProjectEntries(rows: seq<Row>, from: nat, header: seq<string>)
    requires from <= |rows|
    ensures EntriesMatch(Project(rows, from, header), NonBlankFrom(rows, from), rows, header)
    decreases |rows| - from
  {
    if from < |rows| {
      ProjectEntries(rows, from + 1, header);
      var p := Project(rows, from + 1, header);
      var n := NonBlankFrom(rows, from + 1);
      if !Blank(rows[from]) {
        EntriesCons(p, n, rows, header, from);
        assert Project(rows, from, header) == [RowRecord(header, rows[from])] + p;
        assert NonBlankFrom(rows, from) == [from] + n;
      } else {
        assert Project(rows, from, header) == p;
        assert NonBlankFrom(rows, from) == n;
      }
    }
  }

  /** `b` is the attempt of the earliest candidate among those missing the
      fewest required keys. */
  ghost predicate BestCandidate(cands: seq<Option<Attempt>>, b: Attempt) {
    exists i :: IsBestCandidateAt(cands, b, i)
  }

  predicate IsBestCandidateAt(cands: seq<Option<Attempt>>, b: Attempt, i: nat) {
    && i < |cands| && cands[i] == Some(b)
    && (forall j :: 0 <= j < |cands| && cands[j].Some? ==> |b.missing| <= |cands[j].value.missing|)
    && (forall j :: 0 <= j < i && cands[j].Some? ==> |b.missing| < |cands[j].value.missing|)
  }

  /** An attempt that sits after position `k` of the collected attempts
      comes from a later row. */
  lemma LaterAttemptLaterRow(cands: seq<Option<Attempt>>, k: nat, i: nat, j: nat)
    requires forall j :: 0 <= j < |cands| && cands[j].Some? ==> cands[j].value.index == j
    requires k < |AttemptsFrom(cands, 0)|
    requires i < |cands| && cands[i] == Some(AttemptsFrom(cands, 0)[k])
    requires j < i && cands[j].Some?
    ensures exists l :: 0 <= l < k && AttemptsFrom(cands, 0)[l] == cands[j].value
  {
    var atts := AttemptsFrom(cands, 0);
    assert cands[j].value in atts;
    var l :| 0 <= l < |atts| && atts[l] == cands[j].value;
    assert atts[l].index == j && atts[k].index == i;
    if l > k {
      AttemptsFromOrdered(cands, 0, k, l);
    }
    assert l < k;
  }

  /** The stable sort's first attempt is the best candidate. */
  lemma BestIsBestCandidate(cands: seq<Option<Attempt>>)
    requires forall j :: 0 <= j < |cands| && cands[j].Some? ==> cands[j].value.index == j
    requires AttemptsFrom(cands, 0) != []
    ensures BestCandidate(cands, Best(AttemptsFrom(cands, 0)).value)
  {
    var atts := AttemptsFrom(cands, 0);
    var k := BestIndex(atts);
    var b := atts[k];
    assert atts[k] in atts;
    var i :| 0 <= i < |cands| && cands[i] == Some(b);
    forall j | 0 <= j < |cands| && cands[j].Some?
      ensures |b.missing| <= |cands[j].value.missing|
    {
      assert cands[j].value in atts;
    }
    forall j | 0 <= j < i && cands[j].Some?
      ensures |b.missing| < |cands[j].value.missing|
    {
      LaterAttemptLaterRow(cands, k, i, j);
    }
    assert IsBestCandidateAt(cands, b, i);
  }

  datatype Resolution = HeaderAt(index: nat, header: seq<string>) | NoHeader(best: Option<Attempt>)

  /** The header search over the candidates: the first complete candidate,
      or else the best attempt, if any. */
  function Resolve(cands: seq<Option<Attempt>>): (r: Resolution)
    requires forall j :: 0 <= j < |cands| && cands[j].Some? ==> cands[j].value.index == j
    ensures r.HeaderAt? ==> r.index < |cands| && Complete(cands[r.index])
                            && r.header == cands[r.index].value.mapped
                            && forall j :: 0 <= j < r.index ==> !Complete(cands[j])
    ensures r.NoHeader? <==> forall j :: 0 <= j < |cands| ==> !Complete(cands[j])
    ensures r.NoHeader? ==> (r.best.None? <==> forall j :: 0 <= j < |cands| ==> cands[j].None?)
    ensures r.NoHeader? && r.best.Some? ==> BestCandidate(cands, r.best.value)
  {
    match FindHeader(cands, 0)
    case Found(i, header) => HeaderAt(i, header)
    case NotFound(atts) =>
      if atts != [] then
        assert atts[0] in atts;
        BestIsBestCandidate(cands);
        NoHeader(Best(atts))
      else
        NoHeader(None)
  }

  datatype Outcome =
    | Records(records: seq<Record>)
    | HeaderNotFound(best: Option<Attempt>)

  /** `rowsToObjects`: no rows give no records; otherwise the first complete
      candidate row is the header and every later non-blank row is projected,
      or the search fails carrying its best attempt. */
  function RowsToObjects(rows: seq<Row>): (r: Outcome)
    ensures rows == [] ==> r == Records([])
    ensures r.HeaderNotFound? <==> rows != [] && forall j :: 0 <= j < |rows| ==> !Complete(Candidates(rows)[j])
    ensures r.Records? && rows != [] ==>
              exists i :: 0 <= i < |rows| && Complete(Candidates(rows)[i])
                && (forall j :: 0 <= j < i ==> !Complete(Candidates(rows)[j]))
                && r.records == Project(rows, i + 1, Candidates(rows)[i].value.mapped)
  {
    if rows == [] then Records([])
    else
      match Resolve(Candidates(rows))
      case HeaderAt(i, header) => Records(Project(rows, i + 1, header))
      case NoHeader(best) => HeaderNotFound(best)
  }

  /** When no header is found, the best attempt is reported, and there is
      none exactly when every row is blank. */
  lemma RowsToObjectsBest(rows: seq<Row>)
    requires RowsToObjects(rows).HeaderNotFound?
    ensures RowsToObjects(rows).best.None? <==> forall j :: 0 <= j < |rows| ==> Blank(rows[j])
    ensures RowsToObjects(rows).best.Some? ==> BestCandidate(Candidates(rows), RowsToObjects(rows).best.value)
  {
    var cands := Candidates(rows);
    assert RowsToObjects(rows).best == Resolve(cands).best;
    assert (forall j :: 0 <= j < |cands| ==> cands[j].None?)
       <==> (forall j :: 0 <= j < |rows| ==> Blank(rows[j]));
  }


  /** A complete candidate is a non-blank row whose mapped header covers
      every required key. */
  lemma CompleteMeaning(rows: seq<Row>, i: nat, k: string)
    requires i < |rows| && Complete(Candidates(rows)[i])
    requires k in RequiredKeys
    ensures !Blank(rows[i])
    ensures exists m :: m in Mapped(rows[i]) && CanonicalKey(m) == k
  {
    assert MissingKeys(rows[i]) == [] by {
      CandidateIsAttempt(rows, 0, i);
    }
    CoveredKey(rows[i], k);
  }

  /** A row missing no required key maps some cell to each of them. */
  lemma CoveredKey(row: Row, k: string)
    requires MissingKeys(row) == [] && k in RequiredKeys
    ensures exists m :: m in Mapped(row) && CanonicalKey(m) == k
  {
    MissingKeysMeaning(row, k);
  }
}
