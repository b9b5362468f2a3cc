/** `parseVariableDescriptionEntries`: the small grammar of the
    VARIABLES_Description cells. A cell holds chunks of the form
    `<<Name>>: Description (Default)`, separated by line breaks or simply
    written one after the other; each chunk either yields an entry for the
    canonical name or is rejected with one issue. */
module VarDesc {
  import opened Chars
  import opened Strings
  import opened Sanitize

  // ---------------------------------------------------------------------------
  // Chunking

  /** `s.split(/\r?\n/)`: pieces between line feeds, a carriage return just
      before a line feed going with the separator. */
  function SplitLines(s: string): (r: seq<string>)
    ensures |r| >= 1
    ensures forall k :: 0 <= k < |r| ==> '\n' !in r[k]
    decreases |s|
  {
    match FirstIndexOf(s, '\n')
    case None => [s]
    case Some(j) =>
      var end := if j > 0 && s[j - 1] == '\r' then j - 1 else j;
      assert s[..end] == s[..j][..end];
      [s[..end]] + SplitLines(s[j + 1..])
  }

  function JoinLines(parts: seq<string>): string
    requires |parts| >= 1
  {
    if |parts| == 1 then parts[0] else parts[0] + "\n" + JoinLines(parts[1..])
  }

  /** One step of the line split, when no carriage return is involved. */
  lemma SplitLinesStep(s: string, j: nat)
    requires FirstIndexOf(s, '\n') == Some(j) && '\r' !in s
    ensures '\r' !in s[j + 1..]
    ensures s == s[..j] + "\n" + s[j + 1..]
    ensures JoinLines(SplitLines(s)) == s[..j] + "\n" + JoinLines(SplitLines(s[j + 1..]))
  {
    assert j > 0 ==> s[j - 1] in s;
    var rest := SplitLines(s[j + 1..]);
    assert SplitLines(s) == [s[..j]] + rest;
    assert ([s[..j]] + rest)[1..] == rest;
    assert forall c :: c in s[j + 1..] ==> c in s;
  }

  /** Without carriage returns, the line split is undone by joining with line
      feeds. */
  lemma {:induction false} SplitLinesJoin(s: string)
    requires '\r' !in s
    ensures JoinLines(SplitLines(s)) == s
    decreases |s|
  {
    match FirstIndexOf(s, '\n')
    case None =>
    case Some(j) =>
      SplitLinesStep(s, j);
      SplitLinesJoin(s[j + 1..]);
  }

  /** `line.split(/(?=<<)/)`: the line cut just before every `<<` that does
      not start it. */
  function SplitBefore(s: string): (r: seq<string>)
    ensures |r| >= 1
    ensures s != [] ==> forall k :: 0 <= k < |r| ==> r[k] != []
    decreases |s|
  {
    match IndexOfFrom(s, "<<", 1)
    case None => [s]
    case Some(q) => [s[..q]] + SplitBefore(s[q..])
  }

  function Concat(parts: seq<string>): string {
    if parts == [] then [] else parts[0] + Concat(parts[1..])
  }

  /** The cut before piece `k` is sound and complete: unless it is the first,
      the text from it on starts with `<<`, and no `<<` starts strictly
      inside it. */
  predicate CutBefore(r: seq<string>, k: nat)
    requires k < |r|
  {
    && (k > 0 ==> StartsWith(Concat(r[k..]), "<<"))
    && forall i :: 1 <= i < |r[k]| ==> !OccursAt(Concat(r[k..]), "<<", i)
  }

  /** The pieces of a line put back together give the line, and they are cut
      exactly before the `<<`s that do not start it. */
  lemma SplitBeforeSpec(s: string)
    ensures Concat(SplitBefore(s)) == s
    ensures forall k :: 0 <= k < |SplitBefore(s)| ==> CutBefore(SplitBefore(s), k)
  {
    SplitBeforeConcat(s);
    SplitBeforeCuts(s);
  }

  lemma ConcatCons(a: string, t: seq<string>)
    ensures Concat([a] + t) == a + Concat(t)
  {
    assert ([a] + t)[1..] == t;
  }

  lemma {:induction false} SplitBeforeConcat(s: string)
    ensures Concat(SplitBefore(s)) == s
    decreases |s|
  {
    match IndexOfFrom(s, "<<", 1)
    case None =>
      assert SplitBefore(s) == [s] + [];
      ConcatCons(s, []);
    case Some(q) =>
      SplitBeforeConcat(s[q..]);
      SplitBeforeSome(s, q);
      ConcatJoin(SplitBefore(s), s[..q], SplitBefore(s[q..]), s[q..]);
      SplitAt(s, q);
  }

  /** Joining the pieces: the head followed by the concatenation of the rest. */
  lemma ConcatJoin(r: seq<string>, a: string, t: seq<string>, rest: string)
    requires r == [a] + t && Concat(t) == rest
    ensures Concat(r) == a + rest
  {
    ConcatCons(a, t);
  }

  lemma SplitAt(s: string, q: nat)
    requires q <= |s|
    ensures s[..q] + s[q..] == s
  {
  }

  lemma SplitBeforeSome(s: string, q: nat)
    requires IndexOfFrom(s, "<<", 1) == Some(q)
    ensures SplitBefore(s) == [s[..q]] + SplitBefore(s[q..])
  {
  }

  lemma {:induction false} SplitBeforeCuts(s: string)
    ensures forall k :: 0 <= k < |SplitBefore(s)| ==> CutBefore(SplitBefore(s), k)
    decreases |s|
  {
    var r := SplitBefore(s);
    SplitBeforeConcat(s);
    assert r[0..] == r;
    match IndexOfFrom(s, "<<", 1)
    case None =>
    case Some(q) =>
      var tail := SplitBefore(s[q..]);
      SplitBeforeCuts(s[q..]);
      SplitBeforeConcat(s[q..]);
      assert r == [s[..q]] + tail;
      assert r[1..] == tail;
      forall k | 1 <= k < |r| ensures CutBefore(r, k) {
        assert r[k..] == tail[k - 1..];
        assert CutBefore(tail, k - 1);
        if k == 1 {
          assert tail[0..] == tail;
          assert OccursAt(s, "<<", q);
          assert s[q..][..2] == s[q..q + 2];
        }
      }
  }

  /** Every line split before its `<<`s, in order. */
  function SplitAll(lines: seq<string>): seq<string> {
    if lines == [] then [] else SplitBefore(lines[0]) + SplitAll(lines[1..])
  }

  /** `.map(part => part.trim()).filter(Boolean)`. */
  function TrimmedChunks(parts: seq<string>): (r: seq<string>)
    ensures |r| <= |parts|
    ensures forall k :: 0 <= k < |r| ==> r[k] != [] && !IsSpace(r[k][0]) && !IsSpace(r[k][|r[k]| - 1])
  {
    if parts == [] then []
    else
      var t := Trim(parts[0]);
      (if t == [] then [] else [t]) + TrimmedChunks(parts[1..])
  }

  /** The chunks are the parts trimmed, in order, with the empty ones
      dropped. */
  lemma {:induction false} TrimmedChunksFilter(parts: seq<string>)
    ensures TrimmedChunks(parts) == Filter(TrimEach(parts), NonEmpty)
  {
    if parts != [] {
      TrimmedChunksFilter(parts[1..]);
      var ts := TrimEach(parts);
      assert ts[0] == Trim(parts[0]);
      assert ts[1..] == TrimEach(parts[1..]);
      assert Filter(ts, NonEmpty) == (if NonEmpty(ts[0]) then [ts[0]] else []) + Filter(ts[1..], NonEmpty);
    }
  }

  /** The chunks of a description cell. */
  function Chunks(text: string): seq<string> {
    TrimmedChunks(SplitAll(SplitLines(text)))
  }

  // ---------------------------------------------------------------------------
  // One chunk

  datatype Reason =
    | MissingFormat        // the chunk does not start with `<<`
    | MissingClose         // no `>>`
    | MissingColon         // no `:` after the name
    | MissingDescription   // nothing after the colon
    | EmptyName            // the name has no canonical form
    | EmptyDescription(key: string)  // reported, but the entry is kept

  datatype Chunk =
    | Rejected(reason: Reason)
    | Accepted(key: string, description: string, defaultValue: string)

  /** Where the default value opens: the last `(`, when the text ends with
      `)`. The source's test `lastClose > lastOpen && lastClose == length - 1`
      reduces to this, because the last `)` of a text ending with `)` is its
      final character. */
  function DefaultOpen(rest: string): (r: Option<nat>)
    ensures r.Some? <==> rest != [] && rest[|rest| - 1] == ')' && '(' in rest
    ensures r.Some? ==> r.value < |rest| - 1 && rest[r.value] == '('
                        && forall i :: r.value < i < |rest| ==> rest[i] != '('
  {
    match LastIndexOf(rest, '(')
    case None => None
    case Some(lastOpen) =>
      match LastIndexOf(rest, ')')
      case None => None
      case Some(lastClose) =>
        if lastClose > lastOpen && lastClose == |rest| - 1 then Some(lastOpen) else None
  }

  /** The description and default value of the text after the colon. */
  function SplitDefault(rest: string): (r: (string, string))
    ensures DefaultOpen(rest).None? ==> r == (rest, "")
    ensures DefaultOpen(rest).Some? ==>
              var i := DefaultOpen(rest).value;
              r == (Trim(rest[..i]), Trim(rest[i + 1..|rest| - 1]))
  {
    var open := DefaultOpen(rest);
    if open.None? then (rest, "")
    else
      var i := open.value;
      (Trim(rest[..i]), Trim(rest[i + 1..|rest| - 1]))
  }

  /** What any chunk's outcome satisfies: a rejection names a reason other
      than the empty description, an accepted key is a non-empty canonical
      name. */
  predicate ValidOutcome(c: Chunk) {
    match c
    case Rejected(reason) => !reason.EmptyDescription?
    case Accepted(key, _, _) => key != [] && IsCanonicalName(key)
  }

  /** The syntax of a chunk: either the reason it is malformed, or the
      trimmed name between `<<` and the first `>>` and the trimmed text after
      the colon. */
  datatype Syntax = Malformed(reason: Reason) | Parts(nameRaw: string, rest: string)

  /** The chunk opens with `<<` and holds a `>>` somewhere after. */
  predicate Closes(entry: string) {
    StartsWith(entry, "<<") && IndexOf(entry, ">>").Some?
  }

  /** The text between `<<` and the first `>>`, trimmed. */
  function NameText(entry: string): string
    requires Closes(entry)
  {
    var i := IndexOf(entry, ">>").value;
    if i < 2 then [] else Trim(entry[2..i])
  }

  /** The text after the first `>>`, trimmed. */
  function AfterClose(entry: string): string
    requires Closes(entry)
  {
    Trim(entry[IndexOf(entry, ">>").value + 2..])
  }

  /** A closed chunk whose text after `>>` starts with a colon. */
  predicate HasColon(entry: string) {
    Closes(entry) && StartsWith(AfterClose(entry), ":")
  }

  /** The text after the colon, trimmed. */
  function DescriptionText(entry: string): string
    requires HasColon(entry)
  {
    Trim(AfterClose(entry)[1..])
  }

  /** The syntactic checks of one chunk, in the source's order: each reason
      is reported exactly when the checks before it pass and its own fails. */
  function Fields(entry: string): (r: Syntax)
    ensures r.Malformed? ==> r.reason in {MissingFormat, MissingClose, MissingColon, MissingDescription}
    ensures r.Malformed? && r.reason == MissingFormat <==> !StartsWith(entry, "<<")
    ensures r == Malformed(MissingClose) <==> StartsWith(entry, "<<") && forall i :: !OccursAt(entry, ">>", i)
    ensures r == Malformed(MissingColon) <==> Closes(entry) && !HasColon(entry)
    ensures r == Malformed(MissingDescription) <==> HasColon(entry) && DescriptionText(entry) == []
    ensures r.Parts? <==> HasColon(entry) && DescriptionText(entry) != []
    ensures r.Parts? ==> r.nameRaw == NameText(entry) && r.rest == DescriptionText(entry)
    ensures r.Parts? ==> r.rest != []
  {
    if !StartsWith(entry, "<<") then Malformed(MissingFormat)
    else
      match IndexOf(entry, ">>")
      case None => Malformed(MissingClose)
      case Some(closeIdx) =>
        assert closeIdx >= 2 by {
          assert entry[0] == '<' && entry[1] == '<';
        }
        var nameRaw := Trim(entry[2..closeIdx]);
        var afterClose := Trim(entry[closeIdx + 2..]);
        assert Closes(entry) && afterClose == AfterClose(entry) && nameRaw == NameText(entry);
        if !StartsWith(afterClose, ":") then Malformed(MissingColon)
        else
          var rest := Trim(afterClose[1..]);
          assert HasColon(entry) && rest == DescriptionText(entry);
          if rest == [] then Malformed(MissingDescription) else Parts(nameRaw, rest)
  }

  /** One chunk: its syntax, then the canonical name and the default value. */
  function ParseChunk(entry: string): (r: Chunk)
    ensures ValidOutcome(r)
    ensures r.Rejected? && r.reason == MissingFormat <==> !StartsWith(entry, "<<")
    ensures r == Rejected(MissingClose) <==> StartsWith(entry, "<<") && forall i :: !OccursAt(entry, ">>", i)
    ensures r == Rejected(MissingColon) <==> Closes(entry) && !HasColon(entry)
    ensures r == Rejected(MissingDescription) <==> HasColon(entry) && DescriptionText(entry) == []
    ensures r == Rejected(EmptyName) <==>
              HasColon(entry) && DescriptionText(entry) != [] && CanonicalVar(NameText(entry)) == []
    ensures r.Accepted? <==>
              HasColon(entry) && DescriptionText(entry) != [] && CanonicalVar(NameText(entry)) != []
    ensures r.Accepted? ==> r.key == CanonicalVar(NameText(entry))
    ensures r.Accepted? ==> (r.description, r.defaultValue) == SplitDefault(DescriptionText(entry))
  {
    match Fields(entry)
    case Malformed(reason) => Rejected(reason)
    case Parts(nameRaw, rest) =>
      var (description, defaultValue) := SplitDefault(rest);
      var key := CanonicalVar(nameRaw);
      if key == [] then Rejected(EmptyName)
      else Accepted(key, description, defaultValue)
  }

  /** A chunk that does not open with `<<` lacks the format. */
  lemma RejectMissingFormat()
    ensures ParseChunk("nom: x") == Rejected(MissingFormat)
  {
    var e := "nom: x";
    assert e[..2][0] == 'n';
  }

  /** A chunk with no `>>` lacks the closing delimiter. */
  lemma RejectMissingClose()
    ensures ParseChunk("<<nom: x") == Rejected(MissingClose)
  {
    var open := "<<nom: x";
    assert StartsWith(open, "<<");
    assert forall k :: 0 <= k < |open| ==> open[k] != '>';
    NoCloseWithoutGt(open);
  }

  /** A text without `>` has no `>>` anywhere. */
  lemma NoCloseWithoutGt(s: string)
    requires forall k :: 0 <= k < |s| ==> s[k] != '>'
    ensures forall i :: !OccursAt(s, ">>", i)
  {
    forall i
      ensures !OccursAt(s, ">>", i)
    {
      if 0 <= i && i + 2 <= |s| {
        assert s[i..i + 2][0] == s[i];
      }
    }
  }

  /** A closed chunk whose text after `>>` does not start with a colon lacks
      the colon. */
  lemma RejectMissingColon(name: string, after: string)
    requires '>' !in name
    requires !StartsWith(Trim(after), ":")
    ensures ParseChunk("<<" + name + ">>" + after) == Rejected(MissingColon)
  {
    var e := "<<" + name + ">>" + after;
    FindClose(name, after);
    assert AfterClose(e) == Trim(after);
  }

  /** A closed chunk with nothing but white space after the colon lacks the
      description. */
  lemma RejectMissingDescription(name: string, after: string)
    requires '>' !in name
    requires StartsWith(Trim(after), ":") && Trim(Trim(after)[1..]) == []
    ensures ParseChunk("<<" + name + ">>" + after) == Rejected(MissingDescription)
  {
    var e := "<<" + name + ">>" + after;
    FindClose(name, after);
    assert AfterClose(e) == Trim(after);
  }

  /** A text whose ends are not white space. */
  predicate Trimmed(s: string) {
    s == [] || (!IsSpace(s[0]) && !IsSpace(s[|s| - 1]))
  }

  /** The chunk an author writes for a variable: its name, a colon, the
      description and the default value in parentheses. */
  function FormatEntry(name: string, description: string, defaultValue: string): string {
    "<<" + name + ">>:" + description + "(" + defaultValue + ")"
  }

  /** In `<<name>>` followed by anything, with no `>` in the name, the first
      `>>` is the one that closes the name. */
  lemma FindClose(name: string, after: string)
    requires '>' !in name
    ensures var e := "<<" + name + ">>" + after;
            StartsWith(e, "<<") && IndexOf(e, ">>") == Some(|name| + 2)
            && e[2..|name| + 2] == name && e[|name| + 4..] == after
  {
    var e := "<<" + name + ">>" + after;
    var m := |name| + 2;
    assert e[..2] == "<<";
    forall i | 0 <= i < m ensures !OccursAt(e, ">>", i) {
      if i < 2 {
        assert e[i] == '<';
      } else {
        assert e[i] == name[i - 2];
      }
    }
    assert e[m..m + 2] == ">>";
    assert OccursAt(e, ">>", m);
    assert e[2..m] == name;
  }

  /** The name and the text after the colon are found where they were
      written. */
  lemma FieldsWellFormed(name: string, rest: string)
    requires '>' !in name && Trimmed(name)
    requires rest != [] && Trimmed(rest)
    ensures Fields("<<" + name + ">>" + (":" + rest)) == Parts(name, rest)
  {
    FindClose(name, ":" + rest);
    TrimOfTrimmed(name);
    ColonRest(rest);
    ColonFirst(rest);
    AfterColon(rest);
  }

  /** The text after `>>` is a colon and the trimmed description. */
  lemma ColonRest(rest: string)
    requires rest != [] && !IsSpace(rest[|rest| - 1])
    ensures Trim(":" + rest) == ":" + rest
  {
    var after := ":" + rest;
    assert after[0] == ':' && after[|after| - 1] == rest[|rest| - 1];
    TrimOfTrimmed(after);
  }

  lemma ColonFirst(rest: string)
    ensures StartsWith(":" + rest, ":")
  {
    assert (":" + rest)[..1] == ":";
  }

  lemma AfterColon(rest: string)
    requires rest != [] && Trimmed(rest)
    ensures Trim((":" + rest)[1..]) == rest
  {
    assert (":" + rest)[1..] == rest;
    TrimOfTrimmed(rest);
  }

  lemma ParseWellFormed(name: string, rest: string)
    requires name != [] && IsCanonicalName(name)
    requires rest != [] && Trimmed(rest)
    ensures ParseChunk("<<" + name + ">>" + (":" + rest))
            == Accepted(name, SplitDefault(rest).0, SplitDefault(rest).1)
  {
    assert forall c :: c in name ==> !IsSpace(c) && c != '>';
    FieldsWellFormed(name, rest);
    CanonicalVarOfCanonical(name);
  }

  /** A default written in parentheses at the end is split off, provided it
      holds no `(` of its own. */
  lemma SplitDefaultFormatted(description: string, defaultValue: string)
    requires Trimmed(description) && Trimmed(defaultValue) && '(' !in defaultValue
    ensures SplitDefault(description + "(" + defaultValue + ")") == (description, defaultValue)
  {
    var rest := description + "(" + defaultValue + ")";
    var i := |description|;
    DefaultOpenFormatted(description, defaultValue);
    assert rest[..i] == description;
    assert rest[i + 1..|rest| - 1] == defaultValue;
    TrimOfTrimmed(description);
    TrimOfTrimmed(defaultValue);
  }

  /** Any text that ends in `(b)` with no `(` inside `b` splits into the
      trimmed text before the parentheses and the trimmed `b`. */
  lemma SplitDefaultAt(a: string, b: string)
    requires '(' !in b
    ensures SplitDefault(a + "(" + b + ")") == (Trim(a), Trim(b))
  {
    var rest := a + "(" + b + ")";
    DefaultOpenFormatted(a, b);
    assert rest[..|a|] == a;
    assert rest[|a| + 1..|rest| - 1] == b;
  }

  /** A text that does not end with `)`, or holds no `(`, is all description
      with an empty default. */
  lemma SplitDefaultNone(rest: string)
    requires !(rest != [] && rest[|rest| - 1] == ')' && '(' in rest)
    ensures SplitDefault(rest) == (rest, "")
  {
  }

  /** Every other text is some `a(b)` with no `(` in `b`, so `SplitDefaultAt`
      gives its split. */
  lemma DefaultShape(rest: string)
    requires rest != [] && rest[|rest| - 1] == ')' && '(' in rest
    ensures exists a, b :: rest == a + "(" + b + ")" && '(' !in b
  {
    var i := LastIndexOf(rest, '(').value;
    var a := rest[..i];
    var b := rest[i + 1..|rest| - 1];
    assert rest == a + "(" + b + ")";
    assert '(' !in b by {
      forall k | 0 <= k < |b|
        ensures b[k] != '('
      {
        assert b[k] == rest[i + 1 + k];
      }
    }
  }

  /** The `(` written before the default is the one `DefaultOpen` finds. */
  lemma DefaultOpenFormatted(description: string, defaultValue: string)
    requires '(' !in defaultValue
    ensures DefaultOpen(description + "(" + defaultValue + ")") == Some(|description|)
  {
    var rest := description + "(" + defaultValue + ")";
    var i := |description|;
    assert rest[i] == '(';
    assert rest[|rest| - 1] == ')';
    assert forall k :: i < k < |rest| - 1 ==> rest[k] == defaultValue[k - i - 1];
  }

  /** Formatting an entry and parsing it gives the entry back. */
  lemma ParseFormatEntry(name: string, description: string, defaultValue: string)
    requires name != [] && IsCanonicalName(name)
    requires Trimmed(description) && Trimmed(defaultValue) && '(' !in defaultValue
    ensures ParseChunk(FormatEntry(name, description, defaultValue))
            == Accepted(name, description, defaultValue)
  {
    var rest := description + "(" + defaultValue + ")";
    assert rest[|rest| - 1] == ')';
    assert description == [] ==> rest[0] == '(';
    assert description != [] ==> rest[0] == description[0];
    assert FormatEntry(name, description, defaultValue) == "<<" + name + ">>" + (":" + rest);
    ParseWellFormed(name, rest);
    SplitDefaultFormatted(description, defaultValue);
  }

  // ---------------------------------------------------------------------------
  // The whole cell

  datatype Desc = Desc(description: string, defaultValue: string)
  datatype Issue = Issue(entry: string, reason: Reason)

  /** The result: the entries' keys in insertion order (the order a `Map`
      iterates in), the entries, and the issues. */
  datatype Parsed = Parsed(keys: seq<string>, descs: map<string, Desc>, issues: seq<Issue>)

  ghost predicate WellKeyed(p: Parsed) {
    && Distinct(p.keys)
    && (forall k :: k in p.descs <==> k in p.keys)
    && (forall k :: k in p.keys ==> k != [] && IsCanonicalName(k))
  }

  /** The issues a chunk raises: one for a rejection, one for an accepted
      chunk with an empty description, none otherwise. */
  function ChunkIssues(entry: string, c: Chunk): (r: seq<Issue>)
    ensures |r| <= 1
    ensures c.Rejected? ==> r == [Issue(entry, c.reason)]
    ensures c.Accepted? ==> (r != [] <==> c.description == [])
  {
    match c
    case Rejected(reason) => [Issue(entry, reason)]
    case Accepted(key, description, _) =>
      if description == [] then [Issue(entry, EmptyDescription(key))] else []
  }

  /** One chunk folded into the result: its issues appended, and its entry
      added only when the key is new. */
  function Step(acc: Parsed, entry: string, c: Chunk): (r: Parsed)
    requires WellKeyed(acc) && ValidOutcome(c)
    ensures WellKeyed(r)
    ensures r.issues == acc.issues + ChunkIssues(entry, c)
  {
    var issues := acc.issues + ChunkIssues(entry, c);
    match c
    case Rejected(_) => acc.(issues := issues)
    case Accepted(key, description, defaultValue) =>
      if key in acc.descs then acc.(issues := issues)
      else Parsed(acc.keys + [key], acc.descs[key := Desc(description, defaultValue)], issues)
  }

  /** The outcome of every chunk. */
  function Outcomes(chunks: seq<string>): (r: seq<Chunk>)
    ensures |r| == |chunks|
    ensures forall i :: 0 <= i < |r| ==> r[i] == ParseChunk(chunks[i]) && ValidOutcome(r[i])
  {
    seq(|chunks|, i requires 0 <= i < |chunks| => ParseChunk(chunks[i]))
  }

  /** The chunks folded left to right, each with its outcome. */
  function ParseAll(chunks: seq<string>, outs: seq<Chunk>): (r: Parsed)
    requires |outs| == |chunks| && forall i :: 0 <= i < |outs| ==> ValidOutcome(outs[i])
    ensures WellKeyed(r)
    decreases |chunks|
  {
    if chunks == [] then Parsed([], map[], [])
    else
      var n := |chunks| - 1;
      Step(ParseAll(chunks[..n], outs[..n]), chunks[n], outs[n])
  }

  /** `parseVariableDescriptionEntries(raw)`. */
  function ParseVariableDescriptions(raw: string): (r: Parsed)
    ensures WellKeyed(r)
    ensures Trim(raw) == [] ==> r == Parsed([], map[], [])
  {
    var text := Trim(raw);
    if text == [] then Parsed([], map[], [])
    else
      var chunks := Chunks(text);
      ParseAll(chunks, Outcomes(chunks))
  }

  // ---------------------------------------------------------------------------
  // Properties of the fold

  function AllIssues(chunks: seq<string>, outs: seq<Chunk>): seq<Issue>
    requires |outs| == |chunks|
    decreases |chunks|
  {
    if chunks == [] then []
    else
      var n := |chunks| - 1;
      AllIssues(chunks[..n], outs[..n]) + ChunkIssues(chunks[n], outs[n])
  }

  /** Issues are raised chunk by chunk, in order: a chunk's issues depend on
      that chunk alone. */
  lemma {:induction false} IssuesPerChunk(chunks: seq<string>, outs: seq<Chunk>)
    requires |outs| == |chunks| && forall i :: 0 <= i < |outs| ==> ValidOutcome(outs[i])
    ensures ParseAll(chunks, outs).issues == AllIssues(chunks, outs)
    decreases |chunks|
  {
    if chunks != [] {
      var n := |chunks| - 1;
      IssuesPerChunk(chunks[..n], outs[..n]);
    }
  }

  /** The keys of the accepted chunks, in chunk order, repeats included. */
  function AcceptedKeys(outs: seq<Chunk>): seq<string>
    decreases |outs|
  {
    if outs == [] then []
    else
      var n := |outs| - 1;
      AcceptedKeys(outs[..n]) + (if outs[n].Accepted? then [outs[n].key] else [])
  }

  /** The entries' keys, the order `Array.from(map.keys())` gives, are the
      accepted keys with repeats dropped. */
  lemma {:induction false} KeysAreAcceptedKeys(chunks: seq<string>, outs: seq<Chunk>)
    requires |outs| == |chunks| && forall i :: 0 <= i < |outs| ==> ValidOutcome(outs[i])
    ensures ParseAll(chunks, outs).keys == Dedup(AcceptedKeys(outs))
    decreases |chunks|
  {
    if chunks != [] {
      var n := |chunks| - 1;
      KeysAreAcceptedKeys(chunks[..n], outs[..n]);
      ParseAllLast(chunks, outs);
      AcceptedKeysLast(outs);
      StepKeys(ParseAll(chunks[..n], outs[..n]), chunks[n], outs[n], AcceptedKeys(outs[..n]));
    }
  }

  /** The fold's last step. */
  lemma ParseAllLast(chunks: seq<string>, outs: seq<Chunk>)
    requires |outs| == |chunks| && forall i :: 0 <= i < |outs| ==> ValidOutcome(outs[i])
    requires chunks != []
    ensures ParseAll(chunks, outs)
            == Step(ParseAll(chunks[..|chunks| - 1], outs[..|chunks| - 1]), chunks[|chunks| - 1], outs[|chunks| - 1])
  {
  }

  /** The accepted keys of a non-empty list end with those of its last chunk. */
  lemma AcceptedKeysLast(outs: seq<Chunk>)
    requires outs != []
    ensures AcceptedKeys(outs)
            == AcceptedKeys(outs[..|outs| - 1]) + (if outs[|outs| - 1].Accepted? then [outs[|outs| - 1].key] else [])
  {
  }

  /** One step adds an accepted key exactly when it is new. */
  lemma StepKeys(prev: Parsed, entry: string, c: Chunk, ks: seq<string>)
    requires WellKeyed(prev) && ValidOutcome(c) && prev.keys == Dedup(ks)
    ensures Step(prev, entry, c).keys == Dedup(ks + (if c.Accepted? then [c.key] else []))
  {
    if c.Accepted? {
      DedupSnoc(ks, c.key);
    } else {
      assert ks + [] == ks;
    }
  }

  /** Each key stands at the place of the first chunk accepted under it. */
  lemma KeysInAcceptanceOrder(chunks: seq<string>, outs: seq<Chunk>)
    requires |outs| == |chunks| && forall i :: 0 <= i < |outs| ==> ValidOutcome(outs[i])
    ensures InFirstUseOrder(ParseAll(chunks, outs).keys, AcceptedKeys(outs))
  {
    KeysAreAcceptedKeys(chunks, outs);
    DedupOrder(AcceptedKeys(outs));
  }

  /** The description map of a cell lists its keys in the order each was
      first accepted, chunk by chunk: the order `varDesc.keys()` yields. */
  lemma DescriptionKeysOrder(raw: string)
    requires Trim(raw) != []
    ensures var chunks := Chunks(Trim(raw));
            InFirstUseOrder(ParseVariableDescriptions(raw).keys, AcceptedKeys(Outcomes(chunks)))
  {
    var chunks := Chunks(Trim(raw));
    KeysInAcceptanceOrder(chunks, Outcomes(chunks));
  }


  predicate Accepts(c: Chunk, key: string) {
    c.Accepted? && c.key == key
  }

  /** What one step does to the entries. */
  lemma StepDescs(acc: Parsed, entry: string, c: Chunk, key: string)
    requires WellKeyed(acc) && ValidOutcome(c)
    ensures key in Step(acc, entry, c).descs <==> key in acc.descs || Accepts(c, key)
    ensures key in acc.descs ==> Step(acc, entry, c).descs[key] == acc.descs[key]
    ensures key !in acc.descs && Accepts(c, key) ==>
              Step(acc, entry, c).descs[key] == Desc(c.description, c.defaultValue)
  {
  }

  /** The first chunk accepted under `key`, if any. */
  function FirstAccepting(outs: seq<Chunk>, key: string): (r: Option<nat>)
    ensures r.Some? ==> r.value < |outs| && Accepts(outs[r.value], key)
                        && forall j :: 0 <= j < r.value ==> !Accepts(outs[j], key)
    ensures r.None? ==> forall j :: 0 <= j < |outs| ==> !Accepts(outs[j], key)
  {
    if outs == [] then None
    else if Accepts(outs[0], key) then Some(0)
    else
      match FirstAccepting(outs[1..], key)
      case None => None
      case Some(i) => Some(i + 1)
  }

  /** The first occurrence of a name wins: a key is present exactly when some
      chunk is accepted under it, and its entry is that of the first such
      chunk, whatever later chunks say. Entries with an empty description
      are stored like any other. */
  lemma {:induction false} FirstWins(chunks: seq<string>, outs: seq<Chunk>, key: string)
    requires |outs| == |chunks| && forall i :: 0 <= i < |outs| ==> ValidOutcome(outs[i])
    ensures key in ParseAll(chunks, outs).descs <==> FirstAccepting(outs, key).Some?
    ensures key in ParseAll(chunks, outs).descs ==>
              var i := FirstAccepting(outs, key).value;
              ParseAll(chunks, outs).descs[key] == Desc(outs[i].description, outs[i].defaultValue)
    decreases |chunks|
  {
    if chunks != [] {
      var n := |chunks| - 1;
      var init := outs[..n];
      FirstWins(chunks[..n], init, key);
      StepDescs(ParseAll(chunks[..n], init), chunks[n], outs[n], key);
      FirstAcceptingPrefix(outs, key);
    }
  }

  /** How the first accepting chunk of a sequence relates to that of the
      sequence without its last chunk. */
  lemma FirstAcceptingPrefix(outs: seq<Chunk>, key: string)
    requires outs != []
    ensures var n := |outs| - 1;
            FirstAccepting(outs, key)
            == if FirstAccepting(outs[..n], key).Some? then FirstAccepting(outs[..n], key)
               else if Accepts(outs[n], key) then Some(n) else None
  {
    var n := |outs| - 1;
    var p := FirstAccepting(outs[..n], key);
    var q := FirstAccepting(outs, key);
    assert forall j :: 0 <= j < n ==> outs[..n][j] == outs[j];
    if p.Some? {
      assert q.Some? && q.value <= p.value;
    } else if q.Some? {
      assert q.value == n;
    }
  }

  // ---------------------------------------------------------------------------
  // A worked example

  /** Two texts joined by a line feed split into those two lines, provided
      neither holds a line feed and the first does not end with a carriage
      return. */
  lemma SplitTwoLines(x: string, y: string)
    requires '\n' !in x && '\n' !in y
    requires x == [] || x[|x| - 1] != '\r'
    ensures SplitLines(x + "\n" + y) == [x, y]
  {
    var s := x + "\n" + y;
    assert s[..|x|] == x && s[|x|] == '\n' && s[|x| + 1..] == y;
    FirstIndexOfAt(s, '\n', |x|);
    assert SplitLines(y) == [y];
  }

  /** A text with no `<` after its first two characters is not cut. */
  lemma UncutLine(s: string)
    requires 2 <= |s| && '<' !in s[2..]
    ensures SplitBefore(s) == [s]
  {
    forall q | 1 <= q
      ensures !OccursAt(s, "<<", q)
    {
      if q + 2 <= |s| {
        assert s[q..q + 2][1] == s[2..][q - 1];
      }
    }
    assert IndexOfFrom(s, "<<", 1).None?;
  }

  /** The text of an entry written without a default value. */
  function PlainEntry(name: string, description: string): string {
    "<<" + name + ">>" + (":" + description)
  }

  /** Two lines, each one entry, are the two chunks of the cell. */
  lemma TwoLineChunks(e1: string, e2: string)
    requires 2 <= |e1| && '<' !in e1[2..] && '\n' !in e1 && Trimmed(e1) && e1[|e1| - 1] != '\r'
    requires 2 <= |e2| && '<' !in e2[2..] && '\n' !in e2 && Trimmed(e2)
    ensures Chunks(e1 + "\n" + e2) == [e1, e2]
  {
    SplitTwoLines(e1, e2);
    UncutLine(e1);
    UncutLine(e2);
    assert SplitAll([e1, e2]) == [e1, e2] by {
      assert [e1, e2][1..] == [e2];
      assert SplitAll([e2]) == SplitBefore(e2) + SplitAll([]);
    }
    TrimOfTrimmed(e1);
    TrimOfTrimmed(e2);
    assert TrimmedChunks([e1, e2]) == [e1, e2] by {
      assert [e1, e2][1..] == [e2];
      assert TrimmedChunks([e2]) == [e2] + TrimmedChunks([]);
    }
  }

  /** Two accepted entries with different keys and non-empty descriptions
      are both stored, in order, with no issue. */
  lemma TwoAccepted(e1: string, e2: string, c1: Chunk, c2: Chunk)
    requires c1.Accepted? && c1.key != [] && IsCanonicalName(c1.key) && c1.description != []
    requires c2.Accepted? && c2.key != [] && IsCanonicalName(c2.key) && c2.description != []
    requires c1.key != c2.key
    ensures ParseAll([e1, e2], [c1, c2])
            == Parsed([c1.key, c2.key],
                      map[c1.key := Desc(c1.description, c1.defaultValue),
                          c2.key := Desc(c2.description, c2.defaultValue)], [])
  {
    var p1 := Parsed([c1.key], map[c1.key := Desc(c1.description, c1.defaultValue)], []);
    assert ChunkIssues(e2, c2) == [];
    FirstOfTwo(e1, e2, c1, c2);
    assert ParseAll([e1, e2], [c1, c2]) == Step(p1, e2, c2);
  }

  /** The first of two accepted entries is folded alone. */
  lemma FirstOfTwo(e1: string, e2: string, c1: Chunk, c2: Chunk)
    requires c1.Accepted? && c1.key != [] && IsCanonicalName(c1.key) && c1.description != []
    requires ValidOutcome(c2)
    ensures ParseAll([e1], [c1]) == Parsed([c1.key], map[c1.key := Desc(c1.description, c1.defaultValue)], [])
    ensures ParseAll([e1, e2], [c1, c2]) == Step(ParseAll([e1], [c1]), e2, c2)
  {
    OneAccepted(e1, c1);
    assert [e1, e2][..1] == [e1] && [c1, c2][..1] == [c1];
    ParseAllLast([e1, e2], [c1, c2]);
  }

  /** One accepted entry with a description is stored alone, with no issue. */
  lemma OneAccepted(e: string, c: Chunk)
    requires c.Accepted? && c.key != [] && IsCanonicalName(c.key) && c.description != []
    ensures ParseAll([e], [c]) == Parsed([c.key], map[c.key := Desc(c.description, c.defaultValue)], [])
  {
    assert ChunkIssues(e, c) == [];
    assert [e][..0] == [] && [c][..0] == [];
    assert ParseAll([e], [c]) == Step(Parsed([], map[], []), e, c);
  }

  /** What the entries of a two-line cell need: canonical, distinct names;
      trimmed, non-empty descriptions and a trimmed default, none holding a
      `<` or a line break; a default with no `(`; a second description that
      does not end with `)`. */
  predicate TwoLineInputs(n1: string, d1: string, v1: string, n2: string, d2: string) {
    && n1 != [] && IsCanonicalName(n1) && n2 != [] && IsCanonicalName(n2) && n1 != n2
    && d1 != [] && Trimmed(d1) && Trimmed(v1) && '(' !in v1
    && d2 != [] && Trimmed(d2) && d2[|d2| - 1] != ')'
    && '<' !in d1 && '<' !in v1 && '<' !in d2
    && '\n' !in d1 && '\n' !in v1 && '\n' !in d2
  }

  /** A canonical name holds neither `<` nor a line break. */
  lemma NamePlain(n: string)
    requires IsCanonicalName(n)
    ensures '<' !in n && '\n' !in n
  {
  }

  /** The shape of the two lines. */
  lemma TwoLineShape(n1: string, d1: string, v1: string, n2: string, d2: string)
    requires TwoLineInputs(n1, d1, v1, n2, d2)
    ensures var e1 := FormatEntry(n1, d1, v1);
            2 <= |e1| && '<' !in e1[2..] && '\n' !in e1 && Trimmed(e1) && e1[|e1| - 1] != '\r'
    ensures var e2 := PlainEntry(n2, d2);
            2 <= |e2| && '<' !in e2[2..] && '\n' !in e2 && Trimmed(e2)
  {
    NamePlain(n1);
    NamePlain(n2);
    var e1 := FormatEntry(n1, d1, v1);
    assert e1[2..] == n1 + ">>:" + d1 + "(" + v1 + ")";
    assert e1 == "<<" + e1[2..];
    var e2 := PlainEntry(n2, d2);
    assert e2[2..] == n2 + ">>" + (":" + d2);
    assert e2 == "<<" + e2[2..];
    assert e2[|e2| - 1] == d2[|d2| - 1];
  }

  /** Each line of the cell is accepted as written. */
  lemma TwoLineOutcomes(n1: string, d1: string, v1: string, n2: string, d2: string)
    requires TwoLineInputs(n1, d1, v1, n2, d2)
    ensures Outcomes([FormatEntry(n1, d1, v1), PlainEntry(n2, d2)])
            == [Accepted(n1, d1, v1), Accepted(n2, d2, "")]
  {
    var e1 := FormatEntry(n1, d1, v1);
    var e2 := PlainEntry(n2, d2);
    OutcomesOfTwo(e1, e2);
    assert ParseChunk(e1) == Accepted(n1, d1, v1) by {
      ParseFormatEntry(n1, d1, v1);
    }
    assert ParseChunk(e2) == Accepted(n2, d2, "") by {
      ParseWellFormed(n2, d2);
      assert SplitDefault(d2) == (d2, "");
    }
  }

  /** The outcomes of two chunks are their two outcomes. */
  lemma OutcomesOfTwo(e1: string, e2: string)
    ensures Outcomes([e1, e2]) == [ParseChunk(e1), ParseChunk(e2)]
  {
    var out := Outcomes([e1, e2]);
    assert out[0] == ParseChunk(e1) && out[1] == ParseChunk(e2);
  }

  /** A cell of two lines, the first entry with a default value and the
      second without: both are stored under their names, in order, and
      nothing is reported. */
  lemma TwoLineCell(n1: string, d1: string, v1: string, n2: string, d2: string)
    requires TwoLineInputs(n1, d1, v1, n2, d2)
    ensures ParseVariableDescriptions(FormatEntry(n1, d1, v1) + "\n" + PlainEntry(n2, d2))
            == Parsed([n1, n2], map[n1 := Desc(d1, v1), n2 := Desc(d2, "")], [])
  {
    var e1 := FormatEntry(n1, d1, v1);
    var e2 := PlainEntry(n2, d2);
    var raw := e1 + "\n" + e2;
    TwoLineShape(n1, d1, v1, n2, d2);
    assert Trimmed(raw) by {
      assert raw[0] == e1[0] && raw[|raw| - 1] == e2[|e2| - 1];
    }
    TrimOfTrimmed(raw);
    TwoLineChunks(e1, e2);
    TwoLineOutcomes(n1, d1, v1, n2, d2);
    TwoAccepted(e1, e2, Accepted(n1, d1, v1), Accepted(n2, d2, ""));
  }

  /** The cell `<<a>>:desc(val)` and `<<b>>:desc2` on two lines gives `a`
      with its default and `b` without one, and no issue. */
  lemma TwoLineExample()
    ensures ParseVariableDescriptions("<<a>>:desc(val)\n<<b>>:desc2")
            == Parsed(["a", "b"], map["a" := Desc("desc", "val"), "b" := Desc("desc2", "")], [])
  {
    assert TwoLineInputs("a", "desc", "val", "b", "desc2");
    assert FormatEntry("a", "desc", "val") + "\n" + PlainEntry("b", "desc2") == "<<a>>:desc(val)\n<<b>>:desc2";
    TwoLineCell("a", "desc", "val", "b", "desc2");
  }
}
