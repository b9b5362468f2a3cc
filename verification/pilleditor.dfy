/** The rendering half of the pill editor (`SimplePillEditor`): the HTML
    escape and `renderContent`, which turns a template text into HTML where
    every `<<name>>` occurrence becomes a non-editable "pill" showing the
    variable's value, or the placeholder itself when the value is blank.

    `renderContent` is lifted out of the component: the `variables` prop is a
    parameter, `None` when it is absent. It is read as a plain object, so a
    placeholder naming an `Object.prototype` member it lacks finds a function
    or an object instead of a string, and `.trim()` throws. */
module PillEditor {
  import opened Chars
  import opened Strings
  import opened Placeholders
  import opened Objects

  // ---------------------------------------------------------------------------
  // HTML escaping

  /** `s.replace(/c/g, rep)` for a single character `c`. */
  function ReplaceAll(s: string, c: char, rep: string): (r: string)
    ensures c !in s ==> r == s
  {
    if s == [] then [] else (if s[0] == c then rep else [s[0]]) + ReplaceAll(s[1..], c, rep)
  }

  lemma {:induction false} ReplaceAllAppend(a: string, b: string, c: char, rep: string)
    ensures ReplaceAll(a + b, c, rep) == ReplaceAll(a, c, rep) + ReplaceAll(b, c, rep)
  {
    if a != [] {
      assert (a + b)[1..] == a[1..] + b;
      ReplaceAllAppend(a[1..], b, c, rep);
    } else {
      assert a + b == b;
    }
  }

  /** The editor's `escapeHtml`: five global replacements, `&` first. */
  function EscapeHtml(s: string): (r: string)
    ensures (forall c :: c in s ==> !IsHtmlSpecial(c)) ==> r == s
  {
    var amp := ReplaceAll(s, '&', "&amp;");
    var lt := ReplaceAll(amp, '<', "&lt;");
    var gt := ReplaceAll(lt, '>', "&gt;");
    var quot := ReplaceAll(gt, '"', "&quot;");
    ReplaceAll(quot, '\'', "&#39;")
  }

  predicate IsHtmlSpecial(c: char) {
    c == '&' || c == '<' || c == '>' || c == '"' || c == '\''
  }

  /** The character table of the admin page's `escapeHtml`, which replaces
      every special character in a single pass. */
  function EscapeChar(c: char): (r: string)
    ensures IsHtmlSpecial(c) <==> r != [c]
  {
    if c == '&' then "&amp;"
    else if c == '<' then "&lt;"
    else if c == '>' then "&gt;"
    else if c == '"' then "&quot;"
    else if c == '\'' then "&#39;"
    else [c]
  }

  /** The single-pass escape: each character replaced by its table entry. */
  function EscapeEach(s: string): (r: string)
    ensures forall c :: c in r ==> c != '<' && c != '>' && c != '"' && c != '\''
  {
    if s == [] then [] else EscapeChar(s[0]) + EscapeEach(s[1..])
  }

  lemma EscapeHtmlAppend(a: string, b: string)
    ensures EscapeHtml(a + b) == EscapeHtml(a) + EscapeHtml(b)
  {
    var a1, b1 := ReplaceAll(a, '&', "&amp;"), ReplaceAll(b, '&', "&amp;");
    ReplaceAllAppend(a, b, '&', "&amp;");
    var a2, b2 := ReplaceAll(a1, '<', "&lt;"), ReplaceAll(b1, '<', "&lt;");
    ReplaceAllAppend(a1, b1, '<', "&lt;");
    var a3, b3 := ReplaceAll(a2, '>', "&gt;"), ReplaceAll(b2, '>', "&gt;");
    ReplaceAllAppend(a2, b2, '>', "&gt;");
    var a4, b4 := ReplaceAll(a3, '"', "&quot;"), ReplaceAll(b3, '"', "&quot;");
    ReplaceAllAppend(a3, b3, '"', "&quot;");
    ReplaceAllAppend(a4, b4, '\'', "&#39;");
  }

  lemma ReplaceAllSingle(c: char, x: char, rep: string)
    ensures ReplaceAll([c], x, rep) == if c == x then rep else [c]
  {
    assert [c][1..] == [];
  }

  /** The passes after the first leave an entity or a plain character alone
      when it holds none of the characters they replace. */
  lemma LaterPasses(x: string)
    requires '<' !in x && '>' !in x && '"' !in x && '\'' !in x
    ensures
      var lt := ReplaceAll(x, '<', "&lt;");
      var gt := ReplaceAll(lt, '>', "&gt;");
      var quot := ReplaceAll(gt, '"', "&quot;");
      ReplaceAll(quot, '\'', "&#39;") == x
  {
  }

  /** On one character the five passes agree with the table: the entities
      introduced by a pass hold none of the characters later passes
      replace, because `&` goes first. */
  lemma EscapeHtmlChar(c: char)
    ensures EscapeHtml([c]) == EscapeChar(c)
  {
    ReplaceAllSingle(c, '&', "&amp;");
    if c == '&' {
      LaterPasses("&amp;");
    } else if c == '<' {
      EscapeLt();
    } else if c == '>' {
      EscapeGt();
    } else if c == '"' {
      EscapeQuot();
    } else if c == '\'' {
      EscapeApos();
    } else {
      LaterPasses([c]);
    }
  }

  lemma EscapeLt()
    ensures EscapeHtml("<") == "&lt;"
  {
    ReplaceAllSingle('<', '&', "&amp;");
    ReplaceAllSingle('<', '<', "&lt;");
    var x := "&lt;";
    assert '>' !in x && '"' !in x && '\'' !in x;
  }

  lemma EscapeGt()
    ensures EscapeHtml(">") == "&gt;"
  {
    ReplaceAllSingle('>', '&', "&amp;");
    ReplaceAllSingle('>', '<', "&lt;");
    ReplaceAllSingle('>', '>', "&gt;");
    var x := "&gt;";
    assert '"' !in x && '\'' !in x;
  }

  lemma EscapeQuot()
    ensures EscapeHtml("\"") == "&quot;"
  {
    ReplaceAllSingle('"', '&', "&amp;");
    ReplaceAllSingle('"', '<', "&lt;");
    ReplaceAllSingle('"', '>', "&gt;");
    ReplaceAllSingle('"', '"', "&quot;");
    var x := "&quot;";
    assert '\'' !in x;
  }

  lemma EscapeApos()
    ensures EscapeHtml("'") == "&#39;"
  {
    ReplaceAllSingle('\'', '&', "&amp;");
    ReplaceAllSingle('\'', '<', "&lt;");
    ReplaceAllSingle('\'', '>', "&gt;");
    ReplaceAllSingle('\'', '"', "&quot;");
    ReplaceAllSingle('\'', '\'', "&#39;");
  }

  /** The editor's five-pass escape equals the admin page's one-pass escape. */
  lemma {:induction false} EscapeHtmlIsEscapeEach(s: string)
    ensures EscapeHtml(s) == EscapeEach(s)
  {
    if s != [] {
      assert s == [s[0]] + s[1..];
      EscapeHtmlAppend([s[0]], s[1..]);
      EscapeHtmlChar(s[0]);
      EscapeHtmlIsEscapeEach(s[1..]);
    }
  }

  /** The escaped text holds no `<`, `>`, `"` or `'`. */
  lemma EscapeHtmlSafe(s: string)
    ensures forall c :: c in EscapeHtml(s) ==> c != '<' && c != '>' && c != '"' && c != '\''
  {
    EscapeHtmlIsEscapeEach(s);
  }

  /** Decoding the five entities; every other character stands for itself. */
  function Unescape(s: string): string
    decreases |s|
  {
    if s == [] then []
    else if StartsWith(s, "&amp;") then "&" + Unescape(s[5..])
    else if StartsWith(s, "&lt;") then "<" + Unescape(s[4..])
    else if StartsWith(s, "&gt;") then ">" + Unescape(s[4..])
    else if StartsWith(s, "&quot;") then "\"" + Unescape(s[6..])
    else if StartsWith(s, "&#39;") then "'" + Unescape(s[5..])
    else [s[0]] + Unescape(s[1..])
  }

  /** Decoding an entity at the front of a text. */
  lemma UnescapeEntity(e: string, c: char, rest: string)
    requires e == EscapeChar(c) && IsHtmlSpecial(c)
    ensures Unescape(e + rest) == [c] + Unescape(rest)
  {
    var t := e + rest;
    assert t[..|e|] == e && t[|e|..] == rest;
    if c == '&' {
      assert StartsWith(t, "&amp;");
    } else if c == '<' {
      assert t[1] == 'l';
    } else if c == '>' {
      assert t[1] == 'g';
    } else if c == '"' {
      assert t[1] == 'q';
    } else {
      assert t[1] == '#';
    }
  }

  /** A character that is not special stands for itself. */
  lemma UnescapePlain(c: char, rest: string)
    requires !IsHtmlSpecial(c)
    ensures Unescape([c] + rest) == [c] + Unescape(rest)
  {
    var t := [c] + rest;
    assert t[0] == c && t[1..] == rest;
    EntityHead(t, "&amp;");
    EntityHead(t, "&lt;");
    EntityHead(t, "&gt;");
    EntityHead(t, "&quot;");
    EntityHead(t, "&#39;");
  }

  /** A text starting with an entity starts with its `&`. */
  lemma EntityHead(t: string, e: string)
    requires e != []
    ensures StartsWith(t, e) ==> t[0] == e[0]
  {
    if StartsWith(t, e) {
      assert t[0] == t[..|e|][0];
    }
  }

  lemma UnescapeFront(c: char, rest: string)
    ensures Unescape(EscapeChar(c) + rest) == [c] + Unescape(rest)
  {
    if IsHtmlSpecial(c) {
      UnescapeEntity(EscapeChar(c), c, rest);
    } else {
      UnescapePlain(c, rest);
    }
  }

  /** Escaping loses nothing: decoding the escaped text gives it back. */
  lemma {:induction false} UnescapeEscape(s: string)
    ensures Unescape(EscapeHtml(s)) == s
  {
    EscapeHtmlIsEscapeEach(s);
    UnescapeEach(s);
  }

  lemma {:induction false} UnescapeEach(s: string)
    ensures Unescape(EscapeEach(s)) == s
  {
    if s != [] {
      UnescapeFront(s[0], EscapeEach(s[1..]));
      UnescapeEach(s[1..]);
    }
  }

  // ---------------------------------------------------------------------------
  // renderContent

  /** A rendered piece: escaped literal text, or a pill for one placeholder.
      `stored` is what the pill stands for in the edited text, `display` what
      it shows. */
  datatype Piece =
    | Text(text: string)
    | Pill(name: string, display: string, stored: string, filled: bool)

  /** Reading `name` from the `variables` prop throws: the prop is there,
      lacks the name, and inherits it. */
  predicate ReadThrows(variables: Option<map<string, string>>, name: string) {
    variables.Some? && Get(variables.value, name).Inherited?
  }

  /** `variables?.[name] || ''`, as far as `.trim()` then gets: the value of
      an own entry; empty for an absent prop or an absent name; nothing when
      the read throws. */
  function ValueOf(variables: Option<map<string, string>>, name: string): (r: Option<string>)
    ensures r.None? <==> ReadThrows(variables, name)
    ensures variables.Some? && name in variables.value ==> r == Some(variables.value[name])
    ensures variables.None? || (name !in variables.value && name !in InheritedNames) ==> r == Some("")
  {
    match variables
    case None => Some("")
    case Some(m) =>
      match Get(m, name)
      case Own(v) => Some(v)
      case Inherited => None
      case Undefined => Some("")
  }

  /** The pill for one placeholder: filled exactly when the value, trimmed,
      is non-empty; a filled pill shows the value, an empty one shows the
      placeholder; either way it stores the placeholder. Nothing when reading
      the value throws. */
  function PillFor(variables: Option<map<string, string>>, name: string): (r: Option<Piece>)
    ensures r.None? <==> ReadThrows(variables, name)
    ensures r.Some? ==> r.value.Pill? && r.value.name == name && r.value.stored == "<<" + name + ">>"
    ensures r.Some? ==> (r.value.filled <==> Trim(ValueOf(variables, name).value) != [])
    ensures r.Some? ==> r.value.display == if r.value.filled then ValueOf(variables, name).value else r.value.stored
  {
    match ValueOf(variables, name)
    case None => None
    case Some(value) =>
      var filled := |Trim(value)| > 0;
      var stored := "<<" + name + ">>";
      Some(Pill(name, if filled then value else stored, stored, filled))
  }

  function PieceOf(variables: Option<map<string, string>>, tok: Token): Option<Piece> {
    match tok
    case Literal(s) => Some(Text(s))
    case Placeholder(n) => PillFor(variables, n)
  }

  /** Some placeholder of the scanned text names a variable whose read
      throws. */
  predicate AnyReadThrows(toks: seq<Token>, variables: Option<map<string, string>>) {
    exists k :: 0 <= k < |toks| && toks[k].Placeholder? && ReadThrows(variables, toks[k].name)
  }

  /** The pieces of a text, one per scanned token: the literal text between
      matches, and a pill per placeholder. Nothing when some placeholder's
      read throws. */
  function Pieces(text: string, variables: Option<map<string, string>>): (r: Option<seq<Piece>>)
    ensures r.None? <==> AnyReadThrows(Scan(text), variables)
    ensures r.Some? ==> |r.value| == |Scan(text)|
    ensures r.Some? ==> forall k :: 0 <= k < |r.value| && Scan(text)[k].Literal? ==>
                          r.value[k] == Text(Scan(text)[k].text)
    ensures r.Some? ==> forall k :: 0 <= k < |r.value| && Scan(text)[k].Placeholder? ==>
                          Some(r.value[k]) == PillFor(variables, Scan(text)[k].name)
  {
    var toks := Scan(text);
    if AnyReadThrows(toks, variables) then None
    else
      Some(seq(|toks|, k requires 0 <= k < |toks| => PieceOf(variables, toks[k]).value))
  }

  /** The editor text a piece stands for: a literal as it is, a pill as its
      stored placeholder. */
  function Stored(p: Piece): string {
    match p
    case Text(s) => s
    case Pill(_, _, stored, _) => stored
  }

  function StoredText(ps: seq<Piece>): string {
    if ps == [] then [] else Stored(ps[0]) + StoredText(ps[1..])
  }

  lemma {:induction false} StoredOfPieces(toks: seq<Token>, ps: seq<Piece>)
    requires |ps| == |toks|
    requires forall k :: 0 <= k < |ps| && toks[k].Literal? ==> ps[k] == Text(toks[k].text)
    requires forall k :: 0 <= k < |ps| && toks[k].Placeholder? ==>
               ps[k].Pill? && ps[k].stored == "<<" + toks[k].name + ">>"
    ensures StoredText(ps) == Unscan(toks)
  {
    if toks != [] {
      StoredOfPieces(toks[1..], ps[1..]);
    }
  }

  /** Replacing every pill by its stored value gives back the edited text:
      the pills and the text between them cover it, in order. */
  lemma PiecesRoundTrip(text: string, variables: Option<map<string, string>>)
    ensures Pieces(text, variables).Some? ==> StoredText(Pieces(text, variables).value) == text
  {
    if Pieces(text, variables).Some? {
      StoredOfPieces(Scan(text), Pieces(text, variables).value);
      ScanRoundTrip(text);
    }
  }

  /** Every pill names a non-empty placeholder free of `>`, and stores
      `<<name>>` whatever the variable's value. */
  lemma PillsWellFormed(text: string, variables: Option<map<string, string>>)
    requires Pieces(text, variables).Some?
    ensures forall k :: 0 <= k < |Pieces(text, variables).value| && Pieces(text, variables).value[k].Pill? ==>
              var p := Pieces(text, variables).value[k];
              p.name != [] && '>' !in p.name && p.stored == "<<" + p.name + ">>"
  {
    ScanWellFormed(text);
    var ps := Pieces(text, variables).value;
    forall k | 0 <= k < |ps| && ps[k].Pill?
      ensures ps[k].name != [] && '>' !in ps[k].name && ps[k].stored == "<<" + ps[k].name + ">>"
    {
      assert WellFormedToken(Scan(text)[k]);
    }
  }

  /** The HTML of one piece. The pill's `data-var` attribute carries the name
      unescaped. */
  function PieceHtml(p: Piece): string {
    match p
    case Text(s) => EscapeHtml(s)
    case Pill(name, display, stored, filled) =>
      "<span class=\"var-pill " + (if filled then "filled" else "empty") + "\" data-var=\""
      + name + "\" data-value=\"" + EscapeHtml(stored) + "\" contenteditable=\"false\">"
      + EscapeHtml(display) + "</span>"
  }

  function Html(ps: seq<Piece>): string {
    if ps == [] then [] else PieceHtml(ps[0]) + Html(ps[1..])
  }

  /** The markup of the pill for `name`: class `filled` exactly when the
      value, trimmed, is non-empty; a `data-value` that decodes to the stored
      `<<name>>`; and a body showing the escaped value when filled and the
      escaped placeholder otherwise. Neither escaped part holds a quote or an
      angle bracket, so neither can end the attribute or the element. */
  lemma PillMarkup(variables: Option<map<string, string>>, name: string)
    requires !ReadThrows(variables, name)
    ensures var v := ValueOf(variables, name).value;
            var stored := "<<" + name + ">>";
            var filled := Trim(v) != [];
            var shown := if filled then v else stored;
            && PillFor(variables, name).Some?
            && PieceHtml(PillFor(variables, name).value)
                 == "<span class=\"var-pill " + (if filled then "filled" else "empty") + "\" data-var=\""
                    + name + "\" data-value=\"" + EscapeHtml(stored) + "\" contenteditable=\"false\">"
                    + EscapeHtml(shown) + "</span>"
            && Unescape(EscapeHtml(stored)) == stored
            && Unescape(EscapeHtml(shown)) == shown
            && (forall c :: c in EscapeHtml(stored) + EscapeHtml(shown) ==> c != '<' && c != '>' && c != '"' && c != '\'')
  {
    var v := ValueOf(variables, name).value;
    var stored := "<<" + name + ">>";
    var shown := if Trim(v) != [] then v else stored;
    UnescapeEscape(stored);
    UnescapeEscape(shown);
    EscapeHtmlSafe(stored);
    EscapeHtmlSafe(shown);
  }

  /** `renderContent(text)`: a missing or empty text renders as nothing and
      reads no variable; otherwise the HTML of the text's pieces, in order,
      and nothing when a placeholder's read throws. */
  function RenderContent(text: Option<string>, variables: Option<map<string, string>>): (r: Option<string>)
    ensures text.None? || text == Some([]) ==> r == Some([])
    ensures text.Some? && text.value != [] ==>
              (r.None? <==> AnyReadThrows(Scan(text.value), variables))
    ensures text.Some? && text.value != [] && r.Some? ==> r.value == Html(Pieces(text.value, variables).value)
  {
    match text
    case None => Some([])
    case Some(t) =>
      if t == [] then Some([])
      else
        match Pieces(t, variables)
        case None => None
        case Some(ps) => Some(Html(ps))
  }

  /** A text starting with a placeholder whose name the `variables` prop
      lacks but inherits (`<<toString>>` against `{}`, say) does not render:
      the read throws. */
  lemma RenderInheritedThrows(n: string, rest: string, m: map<string, string>)
    requires n != [] && '>' !in n && n in InheritedNames && n !in m
    ensures RenderContent(Some("<<" + n + ">>" + rest), Some(m)).None?
  {
    var t := "<<" + n + ">>" + rest;
    ScanPlaceholderFront(n, rest);
    assert Scan(t)[0] == Placeholder(n);
    assert AnyReadThrows(Scan(t), Some(m));
  }

  /** A text with no placeholder renders as its escape, whatever the
      variables. */
  lemma RenderPlain(t: string, variables: Option<map<string, string>>)
    requires t != [] && forall k :: 0 <= k < |t| ==> !MatchAt(t, k)
    ensures RenderContent(Some(t), variables) == Some(EscapeHtml(t))
  {
    assert NextMatch(t, 0) == None;
    assert Scan(t) == [Literal(t)];
    assert !AnyReadThrows(Scan(t), variables);
    var ps := Pieces(t, variables).value;
    assert ps == [Text(t)];
    assert RenderContent(Some(t), variables) == Some(Html(ps));
    assert Html(ps) == EscapeHtml(t) + Html([]);
    assert EscapeHtml(t) + [] == EscapeHtml(t);
  }
}
