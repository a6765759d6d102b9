/** The four statement parsers of the text driver (text_driver.c) and the printing they undo. */
module TextStatements {
  import opened CStrings
  import opened TextLexer

  /** `cond` is "*" when there is no where clause; the items of an insert still have their quotes. */
  datatype Statement =
    | Select(cols: seq<string>, table: string, cond: string)
    | Update(table: string, names: seq<string>, values: seq<string>, cond: string)
    | Insert(table: string, quoted: seq<string>)
    | Delete(table: string, cond: string)

  /** The text before and the text after the first `t`. */
  function Cut(s: string, t: string): Option<(string, string)> {
    match Find(s, t)
    case None => None
    case Some(i) => Some((s[..i], s[i + |t|..]))
  }

  /** After `avant`, `cherche` on the remaining text always succeeds and skips the keyword. */
  lemma CutIsAvantThenCherche(s: string, t: string, k: string)
    requires NulFree(s) && k != "" && ' ' !in k && t == " " + k + " " && Avant(s, t).Some?
    ensures var res := Avant(s, t).value;
      |res| <= |s| && NulFree(res) && NulFree(s[|res|..])
      && SkipBlanks(s[|res|..]) != k && AfterKeyword(s[|res|..], k).Some?
      && Cut(s, t) == Some((res, AfterKeyword(s[|res|..], k).value))
  {
    hide Find, SkipBlanks, AfterKeyword;
    var i := Find(s, t).value;
    var rest := s[i + |t|..];
    assert |s[..i]| == i && s[i..] == s[i..i + |t|] + rest;
    AfterKeywordFound(k, rest);
    SkipBlanksAt(" " + k + " " + rest, 1);
    assert (" " + k + " " + rest)[1..] == k + " " + rest;
  }

  lemma CutAt(a: string, t: string, b: string)
    requires ' ' !in a && t != "" && t[0] == ' '
    ensures Cut(a + t + b, t) == Some((a, b))
    ensures Cut(a, t) == None
  {
    FindSkips(a, t, b);
    FindNothing(a, t);
    assert (a + t + b)[..|a|] == a && (a + t + b)[|a| + |t|..] == b;
  }

  function FirstField(s: string): string {
    Split(NoBlanks(s), ',')[0]
  }

  /** The name before the first comma, and the constraint of the where clause. */
  function TableAndCond(s: string): (string, string) {
    match Cut(s, " where ")
    case None => (FirstField(s), "*")
    case Some((t, c)) => (FirstField(t), c)
  }

  function ParseSelect(q: string): Option<Statement> {
    match AfterKeyword(q, "select")
    case None => None
    case Some(b) =>
      match Cut(b, " from ")
      case None => None
      case Some((cols, rest)) =>
        var (table, cond) := TableAndCond(rest);
        Some(Select(Split(NoBlanks(cols), ','), table, cond))
  }

  function AssignedName(piece: string): string {
    Fields(piece, '=', 2)[0]
  }

  function AssignedValue(piece: string): Option<string> {
    Unquote(Fields(piece, '=', 2)[1])
  }

  /** The assignments of an update, or None when some value is not quoted. */
  function Assignments(pieces: seq<string>): Option<(seq<string>, seq<string>)> {
    if exists p | p in pieces :: AssignedValue(p).None? then None else
    Some((seq(|pieces|, i requires 0 <= i < |pieces| => AssignedName(pieces[i])),
          seq(|pieces|, i requires 0 <= i < |pieces| =>
            assert pieces[i] in pieces; AssignedValue(pieces[i]).value)))
  }

  lemma AssignmentsAre(pieces: seq<string>, names: seq<string>, values: seq<string>)
    requires |names| == |values| == |pieces|
    requires forall k | 0 <= k < |pieces| ::
      names[k] == AssignedName(pieces[k]) && AssignedValue(pieces[k]) == Some(values[k])
    ensures Assignments(pieces) == Some((names, values))
  {
    hide AssignedName, AssignedValue;
    assert forall p | p in pieces :: AssignedValue(p).Some?;
    var r := Assignments(pieces).value;
    assert r.0 == names;
    assert r.1 == values;
  }

  function ParseUpdate(q: string): Option<Statement> {
    match AfterKeyword(q, "update")
    case None => None
    case Some(b) =>
      match Cut(b, " set ")
      case None => None
      case Some((table, rest)) =>
        var (assigns, cond) := match Cut(rest, " where ") case None => (rest, "*") case Some(p) => p;
        match Assignments(Split(NoBlanks(assigns), ','))
        case None => None
        case Some((names, values)) => Some(Update(FirstField(table), names, values, cond))
  }

  /** An insert without its parenthesised list makes the C code follow a null pointer. */
  predicate InsertDefined(q: string) {
    SkipBlanks(q) != "insert"
    && match AfterKeyword(q, "insert")
       case None => true
       case Some(a) =>
         SkipBlanks(a) != "into"
         && match AfterKeyword(a, "into")
            case None => true
            case Some(b) =>
              match Cut(b, " values ")
              case None => true
              case Some(p) => InParentheses(p.1).Some?
  }

  function ParseInsert(q: string): Option<Statement>
    requires InsertDefined(q)
  {
    match AfterKeyword(q, "insert")
    case None => None
    case Some(a) =>
      match AfterKeyword(a, "into")
      case None => None
      case Some(b) =>
        match Cut(b, " values ")
        case None => None
        case Some((table, rest)) =>
          Some(Insert(FirstField(table), Split(NoBlanks(InParentheses(rest).value), ',')))
  }

  predicate DeleteDefined(q: string) {
    SkipBlanks(q) != "delete"
    && match AfterKeyword(q, "delete") case None => true case Some(a) => SkipBlanks(a) != "from"
  }

  function ParseDelete(q: string): Option<Statement> {
    match AfterKeyword(q, "delete")
    case None => None
    case Some(a) =>
      match AfterKeyword(a, "from")
      case None => None
      case Some(b) => var (table, cond) := TableAndCond(b); Some(Delete(table, cond))
  }

  /** The queries on which the parsing code stays inside its strings. */
  predicate ParseDefined(q: string) {
    NulFree(q)
    && if Contains(q, "select") then SkipBlanks(q) != "select"
       else if Contains(q, "update") then SkipBlanks(q) != "update"
       else if Contains(q, "insert") then InsertDefined(q)
       else if Contains(q, "delete") then DeleteDefined(q)
       else true
  }

  /** A keyword anywhere in the query selects the branch; the branch then parses the query. */
  function Parse(q: string): Option<Statement>
    requires ParseDefined(q)
  {
    if Contains(q, "select") then ParseSelect(q)
    else if Contains(q, "update") then ParseUpdate(q)
    else if Contains(q, "insert") then ParseInsert(q)
    else if Contains(q, "delete") then ParseDelete(q)
    else None
  }

  // ---- The parsers as the driver runs them ----

  method TableEtContrainte(buffer: string) returns (fichier: string, contrainte: string)
    requires NulFree(buffer)
    ensures (fichier, contrainte) == TableAndCond(buffer)
  {
    var res := Avant(buffer, " where ");
    if res.None? {
      var v := GetValeurs(buffer, ',', 1);
      return v[0], "*";
    }
    CutIsAvantThenCherche(buffer, " where ", "where");
    var v := GetValeurs(res.value, ',', 1);
    var c := Cherche(buffer[|res.value|..], "where");
    return v[0], c.value;
  }

  method TraitSelect(requete: string) returns (r: Option<Statement>)
    requires NulFree(requete) && SkipBlanks(requete) != "select"
    ensures r == ParseSelect(requete)
  {
    hide Find, NoBlanks, Split, TableAndCond, SkipBlanks;
    var b := Cherche(requete, "select");
    if b.None? { return None; }
    var buffer := b.value;
    var res := Avant(buffer, " from ");
    if res.None? { return None; }
    CutIsAvantThenCherche(buffer, " from ", "from");
    var nbre := NbreChamps(res.value);
    var champs := GetValeurs(res.value, ',', nbre);
    b := Cherche(buffer[|res.value|..], "from");
    var fichier, contrainte := TableEtContrainte(b.value);
    return Some(Select(champs, fichier, contrainte));
  }

  method TraitUpdate(requete: string) returns (r: Option<Statement>)
    requires NulFree(requete) && SkipBlanks(requete) != "update"
    ensures r == ParseUpdate(requete)
  {
    hide Find, NoBlanks, Split, SkipBlanks, Unquote;
    var b := Cherche(requete, "update");
    if b.None? { return None; }
    var buffer := b.value;
    var res := Avant(buffer, " set ");
    if res.None? { return None; }
    CutIsAvantThenCherche(buffer, " set ", "set");
    var fichier := GetValeurs(res.value, ',', 1);
    b := Cherche(buffer[|res.value|..], "set");
    buffer := b.value;
    var contrainte := "*";
    res := Avant(buffer, " where ");
    if res.None? {
      res := Some(buffer);
    } else {
      CutIsAvantThenCherche(buffer, " where ", "where");
      b := Cherche(buffer[|res.value|..], "where");
      contrainte := b.value;
    }
    var nbre := NbreChamps(res.value);
    var container := GetValeurs(res.value, ',', nbre);
    var champs, valChamps := SepareAffectations(container);
    if champs.None? { return None; }
    return Some(Update(fichier[0], champs.value, valChamps, contrainte));
  }

  /** The loop of trait_update over the "name=value" pieces. */
  method SepareAffectations(container: seq<string>) returns (champs: Option<seq<string>>, valChamps: seq<string>)
    requires forall p | p in container :: NulFree(p)
    ensures Assignments(container) == if champs.None? then None else Some((champs.value, valChamps))
  {
    var names := [];
    valChamps := [];
    var i := 0;
    while i < |container|
      invariant 0 <= i <= |container| && |names| == |valChamps| == i
      invariant forall k | 0 <= k < i ::
        names[k] == AssignedName(container[k]) && AssignedValue(container[k]) == Some(valChamps[k])
    {
      assert container[i] in container;
      var temp := GetValeurs(container[i], '=', 2);
      var v := Enleve(temp[1]);
      if v.None? { return None, []; }
      names := names + [temp[0]];
      valChamps := valChamps + [v.value];
      i := i + 1;
    }
    AssignmentsAre(container, names, valChamps);
    champs := Some(names);
  }

  method TraitInsert(requete: string) returns (r: Option<Statement>)
    requires NulFree(requete) && InsertDefined(requete)
    ensures r == ParseInsert(requete)
  {
    hide Find, NoBlanks, Split, SkipBlanks, InParentheses;
    var b := Cherche(requete, "insert");
    if b.None? { return None; }
    b := Cherche(b.value, "into");
    if b.None? { return None; }
    var buffer := b.value;
    var res := Avant(buffer, " values ");
    if res.None? { return None; }
    CutIsAvantThenCherche(buffer, " values ", "values");
    var fichier := GetValeurs(res.value, ',', 1);
    b := Cherche(buffer[|res.value|..], "values");
    res := EnlevePar(b.value);
    var nbre := NbreChamps(res.value);
    var valChamps := GetValeurs(res.value, ',', nbre);
    return Some(Insert(fichier[0], valChamps));
  }

  method TraitDelete(requete: string) returns (r: Option<Statement>)
    requires NulFree(requete) && DeleteDefined(requete)
    ensures r == ParseDelete(requete)
  {
    var b := Cherche(requete, "delete");
    if b.None? { return None; }
    b := Cherche(b.value, "from");
    if b.None? { return None; }
    var fichier, contrainte := TableEtContrainte(b.value);
    return Some(Delete(fichier, contrainte));
  }

  // ---- Printing, and how parsing undoes it ----

  function Clause(cond: string): string {
    if cond == "*" then "" else " where " + cond
  }

  function Assignment(name: string, value: string): string {
    name + "='" + value + "'"
  }

  function AssignmentTexts(names: seq<string>, values: seq<string>): seq<string>
    requires |names| == |values|
  {
    Map2(Assignment, names, values)
  }

  function Print(s: Statement): string
    requires s.Update? ==> |s.names| == |s.values|
  {
    match s
    case Select(cols, table, cond) => "select " + (Join(cols, ',') + " from " + (table + Clause(cond)))
    case Update(table, names, values, cond) =>
      "update " + (table + " set " + (Join(AssignmentTexts(names, values), ',') + Clause(cond)))
    case Insert(table, quoted) => "insert into " + (table + " values " + ("(" + Join(quoted, ',') + ")"))
    case Delete(table, cond) => "delete from " + (table + Clause(cond))
  }

  predicate Token(s: string) {
    ' ' !in s && ',' !in s
  }

  /** Statements whose tokens are free of the delimiters that the parser looks for. */
  predicate Printable(s: Statement) {
    match s
    case Select(cols, table, cond) => cols != [] && (forall c | c in cols :: Token(c)) && Token(table)
    case Update(table, names, values, cond) =>
      names != [] && |names| == |values| && Token(table)
      && (forall n | n in names :: Token(n) && '=' !in n)
      && (forall v | v in values :: Token(v) && '=' !in v && '\'' !in v)
    case Insert(table, quoted) =>
      quoted != [] && Token(table) && (forall v | v in quoted :: Token(v) && ')' !in v)
    case Delete(table, cond) => Token(table)
  }

  /** No keyword that the dispatch tests earlier occurs anywhere in the printed statement. */
  predicate Routed(s: Statement)
    requires Printable(s)
  {
    var q := Print(s);
    match s
    case Select(_, _, _) => true
    case Update(_, _, _, _) => !Contains(q, "select")
    case Insert(_, _) => !Contains(q, "select") && !Contains(q, "update")
    case Delete(_, _) => !Contains(q, "select") && !Contains(q, "update") && !Contains(q, "insert")
  }

  lemma FirstFieldToken(s: string)
    requires Token(s)
    ensures FirstField(s) == s
  {
    NoBlanksSame(s);
    SplitNothing(s, ',');
  }

  /** A table name is written with any blanks around it, and what follows a comma is ignored. */
  lemma TableNameCut(text: string, table: string, junk: string)
    requires Spaced(text, table) && Token(table)
    ensures FirstField(text) == table && FirstField(text + "," + junk) == table
  {
    hide NoBlanks, Spaced, Split;
    NoBlanksSpaced(text, table);
    SplitNothing(table, ',');
    NoBlanksConcat(text + ",", junk);
    NoBlanksConcat(text, ",");
    NoBlanksSame(",");
    SplitPiece(table, ',', NoBlanks(junk));
    assert NoBlanks(text + "," + junk) == table + [','] + NoBlanks(junk);
  }

  lemma TableAndCondPrinted(table: string, cond: string)
    requires Token(table)
    ensures TableAndCond(table + Clause(cond)) == (table, cond)
  {
    CutAt(table, " where ", cond);
    FirstFieldToken(table);
    assert table + "" == table;
    assert table + (" where " + cond) == table + " where " + cond;
  }

  /** The keyword at the front of `k + " " + rest` is found and removed, and the dispatch sees it. */
  lemma LeadingKeyword(q: string, k: string, rest: string)
    requires k != "" && ' ' !in k && q == k + " " + rest
    ensures Contains(q, k) && SkipBlanks(q) != k && AfterKeyword(q, k) == Some(rest)
  {
    AfterKeywordFound(k, rest);
    SkipBlanksAt(q, 0);
    assert OccursAt(q, k, 0);
  }

  lemma SelectRoundTrip(s: Statement)
    requires s.Select? && Printable(s)
    ensures Contains(Print(s), "select") && SkipBlanks(Print(s)) != "select"
    ensures ParseSelect(Print(s)) == Some(s)
  {
    hide Find, NoBlanks, Split, SkipBlanks, TableAndCond, Contains, Join, AfterKeyword;
    var tail := s.table + Clause(s.cond);
    var body := Join(s.cols, ',') + " from " + tail;
    LeadingKeyword(Print(s), "select", body);
    JoinKeepsOut(s.cols, ',', ' ');
    CutAt(Join(s.cols, ','), " from ", tail);
    FieldsOfJoin(s.cols, ',');
    TableAndCondPrinted(s.table, s.cond);
  }

  lemma AssignmentParsed(name: string, value: string)
    requires Token(name) && '=' !in name
    requires Token(value) && '=' !in value && '\'' !in value
    ensures var p := Assignment(name, value);
      ' ' !in p && ',' !in p && AssignedName(p) == name && AssignedValue(p) == Some(value)
  {
    var quoted := ['\''] + value + ['\''];
    var p := Assignment(name, value);
    assert p == name + ['='] + quoted;
    NoBlanksSame(p);
    SplitNothing(quoted, '=');
    SplitPiece(name, '=', quoted);
    UnquoteQuoted(value, '\'');
  }

  lemma AssignmentsParsed(names: seq<string>, values: seq<string>)
    requires names != [] && |names| == |values|
    requires forall n | n in names :: Token(n) && '=' !in n
    requires forall v | v in values :: Token(v) && '=' !in v && '\'' !in v
    ensures var text := Join(AssignmentTexts(names, values), ',');
      ' ' !in text && Assignments(Split(NoBlanks(text), ',')) == Some((names, values))
  {
    hide Assignment, AssignedName, AssignedValue, Assignments, Token, Join, NoBlanks, Split;
    var pieces := AssignmentTexts(names, values);
    forall i | 0 <= i < |pieces|
      ensures AssignedName(pieces[i]) == names[i] && AssignedValue(pieces[i]) == Some(values[i])
      ensures ' ' !in pieces[i] && ',' !in pieces[i]
    {
      AssignmentParsed(names[i], values[i]);
    }
    JoinKeepsOut(pieces, ',', ' ');
    FieldsOfJoin(pieces, ',');
    AssignmentsAre(pieces, names, values);
  }

  lemma UpdateRoundTrip(s: Statement)
    requires s.Update? && Printable(s)
    ensures Contains(Print(s), "update") && SkipBlanks(Print(s)) != "update"
    ensures ParseUpdate(Print(s)) == Some(s)
    ensures ParseSelect(Print(s)) == None && SkipBlanks(Print(s)) != "select"
  {
    hide Find, NoBlanks, Split, SkipBlanks, Contains, Join, AfterKeyword, FirstField, Assignments, AssignmentTexts;
    var assigns := Join(AssignmentTexts(s.names, s.values), ',');
    var tail := assigns + Clause(s.cond);
    var body := s.table + " set " + tail;
    assert Print(s) == "update" + " " + body;
    LeadingKeyword(Print(s), "update", body);
    OtherKeyword(Print(s), "select");
    CutAt(s.table, " set ", tail);
    AssignmentsParsed(s.names, s.values);
    CutAt(assigns, " where ", s.cond);
    FirstFieldToken(s.table);
    assert assigns + "" == assigns;
    assert assigns + (" where " + s.cond) == assigns + " where " + s.cond;
  }

  // ---- Updates with values that are not quoted ----

  function AssignmentTo(name: string, text: string): string {
    name + "=" + text
  }

  lemma AssignmentToParsed(name: string, text: string)
    requires Token(name) && '=' !in name && Token(text) && '=' !in text
    ensures var p := AssignmentTo(name, text);
      ' ' !in p && ',' !in p && AssignedName(p) == name && AssignedValue(p) == Unquote(text)
  {
    var p := AssignmentTo(name, text);
    assert p == name + ['='] + text;
    NoBlanksSame(p);
    SplitNothing(text, '=');
    SplitPiece(name, '=', text);
  }

  /**
    An update is accepted exactly when every value starts with a quoted text, and is rejected
    by every branch that the dispatch may pick when one does not.
   */
  lemma UpdateNeedsQuotes(table: string, names: seq<string>, texts: seq<string>, cond: string)
    requires Token(table) && names != [] && |names| == |texts|
    requires (forall n | n in names :: Token(n) && '=' !in n) && forall v | v in texts :: Token(v) && '=' !in v
    ensures var q := "update " + (table + " set " + (Join(Map2(AssignmentTo, names, texts), ',') + Clause(cond)));
      && (ParseUpdate(q).Some? <==> forall v | v in texts :: exists w :: IsQuoted(v, w))
      && (NulFree(q) ==> ParseDefined(q))
      && (NulFree(q) && Parse(q).Some? ==> forall v | v in texts :: exists w :: IsQuoted(v, w))
  {
    hide Find, NoBlanks, Split, SkipBlanks, Contains, Join, AfterKeyword, FirstField, Assignments, AssignmentTo,
         IsQuoted, AssignedName, AssignedValue, Clause, Token;
    var pieces := Map2(AssignmentTo, names, texts);
    var assigns := Join(pieces, ',');
    var tail := assigns + Clause(cond);
    var body := table + " set " + tail;
    var q := "update " + (table + " set " + tail);
    assert q == "update" + " " + body;
    LeadingKeyword(q, "update", body);
    OtherKeyword(q, "select");
    forall i | 0 <= i < |pieces|
      ensures ' ' !in pieces[i] && ',' !in pieces[i] && AssignedValue(pieces[i]) == Unquote(texts[i])
    {
      AssignmentToParsed(names[i], texts[i]);
    }
    JoinKeepsOut(pieces, ',', ' ');
    FieldsOfJoin(pieces, ',');
    UpdateTextCut(table, assigns, cond);
    QuotedTexts(pieces, texts);
  }

  lemma UpdateTextCut(table: string, assigns: string, cond: string)
    requires Token(table) && ' ' !in assigns
    ensures Cut(table + " set " + (assigns + Clause(cond)), " set ") == Some((table, assigns + Clause(cond)))
    ensures Cut(assigns + Clause(cond), " where ") == if cond == "*" then None else Some((assigns, cond))
    ensures cond == "*" ==> assigns + Clause(cond) == assigns
  {
    hide Find;
    CutAt(table, " set ", assigns + Clause(cond));
    CutAt(assigns, " where ", cond);
    assert assigns + "" == assigns;
    assert assigns + (" where " + cond) == assigns + " where " + cond;
  }

  lemma QuotedTexts(pieces: seq<string>, texts: seq<string>)
    requires |pieces| == |texts| && forall i | 0 <= i < |pieces| :: AssignedValue(pieces[i]) == Unquote(texts[i])
    ensures Assignments(pieces).Some? <==> forall v | v in texts :: exists w :: IsQuoted(v, w)
  {
    hide AssignedValue, AssignedName, Unquote, IsQuoted;
    forall v | v in texts ensures Unquote(v).Some? <==> exists w :: IsQuoted(v, w) {
      if Unquote(v).Some? { UnquoteMeans(v, Unquote(v).value); }
      forall w ensures IsQuoted(v, w) ==> Unquote(v).Some? { UnquoteMeans(v, w); }
    }
    forall p | p in pieces ensures exists v | v in texts :: AssignedValue(p) == Unquote(v) {
      var i :| 0 <= i < |pieces| && pieces[i] == p;
      assert texts[i] in texts;
    }
    forall v | v in texts ensures exists p | p in pieces :: AssignedValue(p) == Unquote(v) {
      var i :| 0 <= i < |texts| && texts[i] == v;
      assert pieces[i] in pieces;
    }
  }

  /** A query that starts with another letter than `k` is not parsed as a `k` statement. */
  lemma OtherKeyword(q: string, k: string)
    requires q != "" && k != "" && q[0] != ' ' && q[0] != k[0]
    ensures AfterKeyword(q, k) == None && SkipBlanks(q) != k
  {
    assert q == [q[0]] + q[1..];
    AfterKeywordOther([q[0]], k, q[1..]);
    SkipBlanksAt(q, 0);
  }

  lemma InsertRoundTrip(s: Statement)
    requires s.Insert? && Printable(s)
    ensures Contains(Print(s), "insert") && InsertDefined(Print(s))
    ensures ParseInsert(Print(s)) == Some(s)
    ensures ParseSelect(Print(s)) == None && SkipBlanks(Print(s)) != "select"
    ensures ParseUpdate(Print(s)) == None && SkipBlanks(Print(s)) != "update"
  {
    hide Find, NoBlanks, Split, SkipBlanks, Contains, Join, AfterKeyword, FirstField, InParentheses;
    var list := Join(s.quoted, ',');
    var tail := "(" + list + ")";
    var b := s.table + " values " + tail;
    var a := "into" + " " + b;
    assert Print(s) == "insert" + " " + a;
    LeadingKeyword(Print(s), "insert", a);
    LeadingKeyword(a, "into", b);
    OtherKeyword(Print(s), "select");
    OtherKeyword(Print(s), "update");
    CutAt(s.table, " values ", tail);
    JoinKeepsOut(s.quoted, ',', ')');
    InParenthesesOf(list);
    FieldsOfJoin(s.quoted, ',');
    FirstFieldToken(s.table);
  }

  lemma DeleteRoundTrip(s: Statement)
    requires s.Delete? && Printable(s)
    ensures Contains(Print(s), "delete") && DeleteDefined(Print(s))
    ensures ParseDelete(Print(s)) == Some(s)
    ensures ParseSelect(Print(s)) == None && SkipBlanks(Print(s)) != "select"
    ensures ParseUpdate(Print(s)) == None && SkipBlanks(Print(s)) != "update"
    ensures InsertDefined(Print(s)) && ParseInsert(Print(s)) == None
  {
    hide Find, NoBlanks, Split, SkipBlanks, Contains, Join, AfterKeyword, FirstField, TableAndCond;
    var b := s.table + Clause(s.cond);
    var a := "from" + " " + b;
    assert Print(s) == "delete" + " " + a;
    LeadingKeyword(Print(s), "delete", a);
    LeadingKeyword(a, "from", b);
    OtherKeyword(Print(s), "select");
    OtherKeyword(Print(s), "update");
    OtherKeyword(Print(s), "insert");
    TableAndCondPrinted(s.table, s.cond);
  }

  /**
    Printing and parsing: every printable statement is parsed back exactly when it holds no
    earlier-tested keyword; otherwise the dispatch picks the wrong branch and that branch
    always rejects the query.
   */
  lemma PrintThenParse(s: Statement)
    requires Printable(s) && NulFree(Print(s))
    ensures ParseDefined(Print(s))
    ensures Parse(Print(s)) == if Routed(s) then Some(s) else None
  {
    hide Find, Contains, SkipBlanks, ParseSelect, ParseUpdate, ParseInsert, ParseDelete, InsertDefined, DeleteDefined,
         Print, Token;
    match s
    case Select(_, _, _) => SelectRoundTrip(s);
    case Update(_, _, _, _) => UpdateRoundTrip(s);
    case Insert(_, _) => InsertRoundTrip(s);
    case Delete(_, _) => DeleteRoundTrip(s);
  }
}
