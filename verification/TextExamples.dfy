/**
  The four statements at inputs: two of the people of README.text, what is sent, what comes
  back and what the file then holds, character by character.
 */
module TextExamples {
  import opened CStrings
  import opened TextLexer
  import opened TextStatements
  import opened TextConstraint
  import opened TextHeader
  import opened TextStream
  import opened TextTable
  import opened TextDriver
  import opened TextRefinement

  const HEADER := "{name}|{adress}|"
  const PEOPLE := Table(["name", "adress"], '|', [["Marry", "Paris"], ["Jean", "London"]])

  lemma RowLooks(a: string, b: string)
    ensures RowLine([a, b], '|') == a + "|" + b + "|"
  {
    assert [a, b][..1] == [a] && [a][..0] == [];
    assert RowLine([a], '|') == a + "|";
  }

  lemma HeaderLooks()
    ensures HeaderLine(["name", "adress"], '|') == HEADER
  {
    var names := ["name", "adress"];
    assert names[1..] == ["adress"] && ["adress"][1..] == [];
    assert Group("name", '|') == "{name}|" && Group("adress", '|') == "{adress}|";
    assert HeaderLine(["adress"], '|') == "{adress}|";
  }

  lemma FileOfOne(a: string, b: string)
    ensures Canon(Table(["name", "adress"], '|', [[a, b]])) == HEADER + "\n" + (a + "|" + b + "|")
  {
    hide RowLine, HeaderLine;
    HeaderLooks();
    RowLooks(a, b);
    var lines := Lines([[a, b]], '|');
    assert lines == [a + "|" + b + "|"] && lines[1..] == [];
    assert Prefixed(lines) == "\n" + (a + "|" + b + "|");
  }

  lemma FileOfTwo(a: string, b: string, a': string, b': string)
    ensures Canon(Table(["name", "adress"], '|', [[a, b], [a', b']]))
      == HEADER + "\n" + (a + "|" + b + "|") + "\n" + (a' + "|" + b' + "|")
  {
    hide RowLine, HeaderLine, Prefixed;
    FileOfOne(a, b);
    RowLooks(a', b');
    CanonAppend(Table(["name", "adress"], '|', [[a, b]]), [a', b']);
    assert [[a, b]] + [[a', b']] == [[a, b], [a', b']];
  }

  lemma FileOfThree(a: string, b: string, a': string, b': string, c: string, e: string)
    ensures Canon(Table(["name", "adress"], '|', [[a, b], [a', b'], [c, e]]))
      == HEADER + "\n" + (a + "|" + b + "|") + "\n" + (a' + "|" + b' + "|") + "\n" + (c + "|" + e + "|")
  {
    hide RowLine, HeaderLine, Prefixed;
    FileOfTwo(a, b, a', b');
    RowLooks(c, e);
    CanonAppend(Table(["name", "adress"], '|', [[a, b], [a', b']]), [c, e]);
    assert [[a, b], [a', b']] + [[c, e]] == [[a, b], [a', b'], [c, e]];
  }

  lemma CanonAppend(t: Table, row: Row)
    ensures Canon(t.(rows := t.rows + [row])) == Canon(t) + "\n" + RowLine(row, t.sep)
  {
    hide RowLine;
    InsertFile(t, row);
  }

  lemma FieldsValid()
    ensures ValidField("Marry", '|') && ValidField("Paris", '|')
    ensures ValidField("Jean", '|') && ValidField("London", '|')
  {
  }

  lemma PeopleValid()
    ensures ValidTable(PEOPLE)
  {
    hide ValidField;
    FieldsValid();
    var names := ["name", "adress"];
    forall n | n in names ensures ValidName(n, '|') && forall c | c in n :: !IsWhite(c) {
      assert n == "name" || n == "adress";
    }
    forall r | r in PEOPLE.rows ensures ValidRow(r, '|') {
      assert r == ["Marry", "Paris"] || r == ["Jean", "London"];
    }
  }

  lemma NotInside(a: string, t: string, c: char)
    requires c in t && c !in a
    ensures !Contains(a, t)
  {
    var i :| 0 <= i < |t| && t[i] == c;
    forall k: nat ensures !OccursAt(a, t, k) {
      assert k + |t| <= |a| ==> a[k..k + |t|][i] == a[k + i];
    }
  }

  lemma PeopleLooks()
    ensures Canon(PEOPLE) == HEADER + "\nMarry|Paris|\nJean|London|"
  {
    hide Canon;
    FileOfTwo("Marry", "Paris", "Jean", "London");
    assert HEADER + "\nMarry|Paris|\nJean|London|"
      == HEADER + "\n" + ("Marry" + "|" + "Paris" + "|") + "\n" + ("Jean" + "|" + "London" + "|");
  }

  /** One printed statement on the file of the people. */
  lemma RunOnPeople(files: map<string, string>, d: string, s: Statement)
    requires d + "people" in files && d + "people" != TEMP
    requires files[d + "people"] == HEADER + "\nMarry|Paris|\nJean|London|"
    requires s.table == "people" && Printable(s) && NulFree(Print(s)) && Routed(s)
    requires Fits(PEOPLE.cols, PEOPLE.sep, s)
    ensures RunDefined(files, d, Print(s))
    ensures var o := Run(files, d, Print(s)); var e := Apply(PEOPLE, s);
      o.code == e.code && o.out == e.out && SameBut(files, o.files, d + "people", Canon(e.table))
  {
    hide Canon, Apply, Fits, ExecDefined, ParseDefined, Parse, Print, Printable, Routed, RunStatement, SameBut;
    PeopleValid();
    PeopleLooks();
    PrintThenParse(s);
    StatementRefines(files, d + "people", PEOPLE, s);
  }

  const COND := "name='Jean'"
  const WHERE := " where " + COND
  const SELECT := "select " + ("adress" + " from " + ("people" + WHERE))
  const UPDATE := "update " + ("people" + " set " + ("adress='Oslo'" + WHERE))
  const INSERT := "insert into " + ("people" + " values " + ("(" + "'Paul','Rome'" + ")"))
  const DELETE := "delete from " + ("people" + WHERE)

  lemma JeanMatches(name: string, adress: string)
    ensures CondDefined(COND)
    ensures Matches(["name", "adress"], [name, adress], COND) <==> name == "Jean"
  {
    hide Matches, Parts;
    var cols, row := ["name", "adress"], [name, adress];
    assert "" + "name" + "" + "=" + "" + "'Jean'" == COND;
    assert "" + "" + "" == "";
    PartsOfCond();
    assert "'" + "Jean" + "'" == "'Jean'";
    assert cols[0] == "name" && cols[0 + 1..] == ["adress"] && row[0] == name;
    ConstraintMeans(cols, row, "name", "=", "'Jean'", "", "", "", name, "Jean");
  }

  lemma PartsOfCond()
    ensures Parts("name", "=", "'Jean'") && CondDefined(COND)
  {
    assert COND[4] == '=' && IsOp(COND[4]);
  }

  lemma FilterTwo(cols: seq<string>, a: Row, b: Row, cond: string, keep: bool)
    requires |a| == |b| == |cols|
    ensures Filter(cols, [a, b], cond, keep)
      == (if Matches(cols, a, cond) == keep then [a] else []) + if Matches(cols, b, cond) == keep then [b] else []
  {
    hide Matches;
    assert [a, b][..1] == [a] && [a][..0] == [];
    assert Filter(cols, [a], cond, keep) == if Matches(cols, a, cond) == keep then [a] else [];
  }

  lemma PeopleFitted()
    ensures Fitted(PEOPLE.rows, 2) == [["Marry", "Paris"], ["Jean", "London"]]
  {
    assert Fit(["Marry", "Paris"], 2) == ["Marry", "Paris"];
    assert Fit(["Jean", "London"], 2) == ["Jean", "London"];
  }

  lemma PeopleFiltered()
    ensures CondDefined(COND)
    ensures Filter(PEOPLE.cols, Fitted(PEOPLE.rows, 2), COND, true) == [["Jean", "London"]]
    ensures Filter(PEOPLE.cols, Fitted(PEOPLE.rows, 2), COND, false) == [["Marry", "Paris"]]
    ensures !Matches(PEOPLE.cols, ["Marry", "Paris"], COND) && Matches(PEOPLE.cols, ["Jean", "London"], COND)
  {
    hide Matches, Filter, CondDefined;
    PeopleFitted();
    JeanMatches("Marry", "Paris");
    JeanMatches("Jean", "London");
    FilterTwo(PEOPLE.cols, ["Marry", "Paris"], ["Jean", "London"], COND, true);
    FilterTwo(PEOPLE.cols, ["Marry", "Paris"], ["Jean", "London"], COND, false);
  }

  predicate Holds(files: map<string, string>, path: string, text: string) {
    path in files && files[path] == text
  }

  /** Everything that is needed to send a statement to the people. */
  predicate Sends(s: Statement, q: string) {
    s.table == "people" && Printable(s) && Print(s) == q && NulFree(q) && Routed(s) && Fits(PEOPLE.cols, PEOPLE.sep, s)
  }

  /** From what the statement does to the table to what the query does to the files. */
  lemma AtInput(files: map<string, string>, d: string, s: Statement, q: string)
    requires Holds(files, d + "people", HEADER + "\nMarry|Paris|\nJean|London|") && d + "people" != TEMP
    requires Sends(s, q)
    ensures RunDefined(files, d, q)
    ensures var o := Run(files, d, q); var e := Apply(PEOPLE, s);
      && o.code == e.code && o.out == e.out && Holds(o.files, d + "people", Canon(e.table))
      && o.files - {TEMP, d + "people"} == files - {TEMP, d + "people"}
  {
    hide Apply, Canon, Run, RunDefined, Print, Printable, Routed, Fits;
    RunOnPeople(files, d, s);
    var o := Run(files, d, q);
    var text := Canon(Apply(PEOPLE, s).table);
    FileAt(files, o.files, d + "people", text);
  }

  lemma FileAt(files: map<string, string>, files': map<string, string>, path: string, text: string)
    requires path != TEMP && SameBut(files, files', path, text)
    ensures Holds(files', path, text) && files' - {TEMP, path} == files - {TEMP, path}
  {
    var after := files[path := text];
    assert path in after - {TEMP} && (files' - {TEMP})[path] == text;
    assert files' - {TEMP, path} == (files' - {TEMP}) - {path};
    assert files - {TEMP, path} == (after - {TEMP}) - {path};
  }

  // ---- SELECT ----

  lemma WhereFree(c: char)
    requires c in "cu\0"
    ensures c !in WHERE && c !in "people"
    ensures "people" != "" && ' ' !in "people" && ',' !in "people"
  {
    assert c !in "name='Jean'" && c !in " where ";
  }

  lemma SelectSent()
    ensures Sends(Select(["adress"], "people", COND), SELECT)
  {
    hide Fits, Printable, Print, NulFree;
    SelectPrinted();
    SelectApplied();
  }

  lemma SelectPrinted()
    ensures var s := Select(["adress"], "people", COND); Printable(s) && Print(s) == SELECT && NulFree(SELECT)
  {
    hide CondDefined, Find;
    WhereFree('\0');
    assert Join(["adress"], ',') == "adress";
    assert Clause(COND) == WHERE by { assert COND != "*"; }
    assert forall c | c in ["adress"] :: c == "adress";
    assert '\0' !in "select " && '\0' !in " from " && '\0' !in "adress";
  }

  lemma SelectApplied()
    ensures Fits(PEOPLE.cols, PEOPLE.sep, Select(["adress"], "people", COND))
    ensures Apply(PEOPLE, Select(["adress"], "people", COND)) == Effect(1, [["London"]], PEOPLE)
  {
    hide Filter, Matches, CondDefined;
    PeopleFiltered();
    assert PEOPLE.cols[1] == "adress";
    assert Project(PEOPLE.cols, ["Jean", "London"], ["adress"]) == ["London"];
  }

  lemma SelectAtInput(files: map<string, string>, d: string)
    requires Holds(files, d + "people", HEADER + "\nMarry|Paris|\nJean|London|") && d + "people" != TEMP
    ensures RunDefined(files, d, SELECT)
      && (var o := Run(files, d, SELECT);
          && o.code == 1 && o.out == [["London"]]
          && Holds(o.files, d + "people", HEADER + "\nMarry|Paris|\nJean|London|"))
  {
    hide *;
    SelectSent();
    SelectApplied();
    AtInput(files, d, Select(["adress"], "people", COND), SELECT);
    PeopleLooks();
  }

  // ---- UPDATE ----

  lemma UpdateSent()
    ensures Sends(Update("people", ["adress"], ["Oslo"], COND), UPDATE)
  {
    hide Fits, Printable, Print, NulFree, Contains;
    UpdatePrinted();
    UpdateApplied();
    UpdateFree('c');
    NotInside(UPDATE, "select", 'c');
  }

  lemma UpdateFree(c: char)
    requires c in "c\0"
    ensures c !in UPDATE
  {
    WhereFree(c);
    assert c !in "update " && c !in " set " && c !in "adress='Oslo'";
  }

  lemma UpdatePrinted()
    ensures var s := Update("people", ["adress"], ["Oslo"], COND); Printable(s) && Print(s) == UPDATE && NulFree(UPDATE)
  {
    hide CondDefined, Find;
    UpdateFree('\0');
    WhereFree('\0');
    var texts := AssignmentTexts(["adress"], ["Oslo"]);
    assert Assignment("adress", "Oslo") == "adress='Oslo'";
    assert texts == ["adress='Oslo'"];
    assert Join(texts, ',') == "adress='Oslo'";
    assert Clause(COND) == WHERE by { assert COND != "*"; }
    assert forall c | c in ["adress"] :: c == "adress";
    assert forall c | c in ["Oslo"] :: c == "Oslo";
  }

  lemma UpdateApplied()
    ensures Fits(PEOPLE.cols, PEOPLE.sep, Update("people", ["adress"], ["Oslo"], COND))
    ensures Apply(PEOPLE, Update("people", ["adress"], ["Oslo"], COND))
      == Effect(1, [], Table(["name", "adress"], '|', [["Marry", "Paris"], ["Jean", "Oslo"]]))
  {
    hide Filter, Matches, CondDefined, ValidField, AssignAll, Fit;
    PeopleFiltered();
    PeopleFitted();
    JeanMoves();
    OsloValid();
    assert forall v | v in ["Oslo"] :: v == "Oslo";
  }

  lemma OsloValid()
    ensures ValidField("Oslo", '|')
  {
  }

  lemma JeanMoves()
    ensures AssignAll(["name", "adress"], [["Marry", "Paris"], ["Jean", "London"]], ["adress"], ["Oslo"], COND)
      == [["Marry", "Paris"], ["Jean", "Oslo"]]
  {
    hide *;
    var cols, marry, jean := ["name", "adress"], ["Marry", "Paris"], ["Jean", "London"];
    JeanMatches("Marry", "Paris");
    JeanMatches("Jean", "London");
    AdressAssigned();
    AssignTwo(cols, marry, jean, ["adress"], ["Oslo"], COND);
    AssignIfIs(cols, marry, ["adress"], ["Oslo"], COND);
    AssignIfIs(cols, jean, ["adress"], ["Oslo"], COND);
  }

  lemma AssignIfIs(cols: seq<string>, row: Row, names: seq<string>, values: seq<string>, cond: string)
    requires |row| == |cols| && |names| == |values|
    ensures AssignIf(cols, row, names, values, cond)
      == if Matches(cols, row, cond) then Assign(cols, row, names, values) else row
  {
  }

  lemma AssignTwo(cols: seq<string>, a: Row, b: Row, names: seq<string>, values: seq<string>, cond: string)
    requires |a| == |b| == |cols| && |names| == |values|
    ensures AssignAll(cols, [a, b], names, values, cond)
      == [AssignIf(cols, a, names, values, cond), AssignIf(cols, b, names, values, cond)]
  {
    hide AssignIf;
  }

  lemma AdressAssigned()
    ensures Assign(["name", "adress"], ["Jean", "London"], ["adress"], ["Oslo"]) == ["Jean", "Oslo"]
  {
    var cols, names := ["name", "adress"], ["adress"];
    assert cols[0] == "name" && cols[1] == "adress" && names[..0] == [];
    assert LastIndex(cols, "adress") == 1;
    assert LastAssignment(cols, names, 0) == -1 && LastAssignment(cols, names, 1) == 0;
  }

  lemma UpdateAtInput(files: map<string, string>, d: string)
    requires Holds(files, d + "people", HEADER + "\nMarry|Paris|\nJean|London|") && d + "people" != TEMP
    ensures RunDefined(files, d, UPDATE)
      && (var o := Run(files, d, UPDATE);
          o.code == 1 && o.out == [] && Holds(o.files, d + "people", HEADER + "\nMarry|Paris|\nJean|Oslo|"))
  {
    hide *;
    UpdateSent();
    UpdateApplied();
    AtInput(files, d, Update("people", ["adress"], ["Oslo"], COND), UPDATE);
    FileOfTwo("Marry", "Paris", "Jean", "Oslo");
    assert HEADER + "\nMarry|Paris|\nJean|Oslo|"
      == HEADER + "\n" + ("Marry" + "|" + "Paris" + "|") + "\n" + ("Jean" + "|" + "Oslo" + "|");
  }

  // ---- INSERT ----

  lemma InsertSent()
    ensures Sends(Insert("people", ["'Paul'", "'Rome'"]), INSERT)
  {
    hide Fits, Printable, Print, NulFree, Contains;
    InsertPrinted();
    InsertApplied();
    InsertFree('c');
    InsertFree('d');
    NotInside(INSERT, "select", 'c');
    NotInside(INSERT, "update", 'd');
  }

  lemma InsertFree(c: char)
    requires c in "cd\0"
    ensures c !in INSERT
  {
    assert c !in "insert into " && c !in "people" && c !in " values " && c !in "("
      && c !in "'Paul','Rome'" && c !in ")";
  }

  lemma InsertPrinted()
    ensures var s := Insert("people", ["'Paul'", "'Rome'"]); Printable(s) && Print(s) == INSERT && NulFree(INSERT)
  {
    hide Find, Unquote;
    InsertFree('\0');
    WhereFree('\0');
    var texts := ["'Paul'", "'Rome'"];
    assert texts[1..] == ["'Rome'"];
    assert Join(["'Rome'"], ',') == "'Rome'";
    assert Join(texts, ',') == "'Paul','Rome'";
    assert forall v | v in texts :: v == "'Paul'" || v == "'Rome'";
  }

  lemma QuotedValues()
    ensures Unquote("'Paul'") == Some("Paul") && Unquote("'Rome'") == Some("Rome")
    ensures ValidField("Paul", '|') && ValidField("Rome", '|')
  {
    hide Unquote;
    assert "'" + "Paul" + "'" == "'Paul'" && "'" + "Rome" + "'" == "'Rome'";
    UnquoteMeans("'Paul'", "Paul");
    UnquoteMeans("'Rome'", "Rome");
  }

  lemma InsertApplied()
    ensures Fits(PEOPLE.cols, PEOPLE.sep, Insert("people", ["'Paul'", "'Rome'"]))
    ensures Apply(PEOPLE, Insert("people", ["'Paul'", "'Rome'"]))
      == Effect(0, [], Table(["name", "adress"], '|', [["Marry", "Paris"], ["Jean", "London"], ["Paul", "Rome"]]))
  {
    hide Unquote, ValidField;
    QuotedValues();
    var texts := ["'Paul'", "'Rome'"];
    assert forall v | v in texts :: v == "'Paul'" || v == "'Rome'";
    assert Unquoted(texts) == ["Paul", "Rome"];
    assert PEOPLE.rows + [["Paul", "Rome"]] == [["Marry", "Paris"], ["Jean", "London"], ["Paul", "Rome"]];
  }

  lemma InsertAtInput(files: map<string, string>, d: string)
    requires Holds(files, d + "people", HEADER + "\nMarry|Paris|\nJean|London|") && d + "people" != TEMP
    ensures RunDefined(files, d, INSERT)
      && (var o := Run(files, d, INSERT);
          && o.code == 0 && o.out == []
          && Holds(o.files, d + "people", HEADER + "\nMarry|Paris|\nJean|London|\nPaul|Rome|"))
  {
    hide *;
    InsertSent();
    InsertApplied();
    AtInput(files, d, Insert("people", ["'Paul'", "'Rome'"]), INSERT);
    FileOfThree("Marry", "Paris", "Jean", "London", "Paul", "Rome");
    assert HEADER + "\nMarry|Paris|\nJean|London|\nPaul|Rome|"
      == HEADER + "\n" + ("Marry" + "|" + "Paris" + "|") + "\n" + ("Jean" + "|" + "London" + "|")
         + "\n" + ("Paul" + "|" + "Rome" + "|");
  }

  // ---- DELETE ----

  lemma DeleteSent()
    ensures Sends(Delete("people", COND), DELETE)
  {
    hide Fits, Printable, Print, NulFree, Contains;
    DeletePrinted();
    DeleteApplied();
    DeleteFree('c');
    DeleteFree('u');
    DeleteFree('s');
    NotInside(DELETE, "select", 'c');
    NotInside(DELETE, "update", 'u');
    NotInside(DELETE, "insert", 's');
  }

  lemma DeleteFree(c: char)
    requires c in "cus\0"
    ensures c !in DELETE
  {
    assert c !in "delete from " && c !in "people" && c !in " where " && c !in COND;
  }

  lemma DeletePrinted()
    ensures var s := Delete("people", COND); Printable(s) && Print(s) == DELETE && NulFree(DELETE)
  {
    hide CondDefined, Find;
    DeleteFree('\0');
    WhereFree('\0');
    assert Clause(COND) == WHERE by { assert COND != "*"; }
  }

  lemma DeleteApplied()
    ensures Fits(PEOPLE.cols, PEOPLE.sep, Delete("people", COND))
    ensures Apply(PEOPLE, Delete("people", COND))
      == Effect(1, [], Table(["name", "adress"], '|', [["Marry", "Paris"], ["Marry", "Paris"]]))
  {
    hide Filter, Matches, CondDefined;
    PeopleFiltered();
    PeopleFitted();
    assert PEOPLE.rows[1] == ["Jean", "London"];
    assert Fit(PEOPLE.rows[1], 2) == ["Jean", "London"];
    assert [["Marry", "Paris"]] + [["Marry", "Paris"]] == [["Marry", "Paris"], ["Marry", "Paris"]];
  }

  /** The stale row at an input: deleting the last person leaves the one before there twice. */
  lemma DeleteAtInput(files: map<string, string>, d: string)
    requires Holds(files, d + "people", HEADER + "\nMarry|Paris|\nJean|London|") && d + "people" != TEMP
    ensures RunDefined(files, d, DELETE)
      && (var o := Run(files, d, DELETE);
          o.code == 1 && o.out == [] && Holds(o.files, d + "people", HEADER + "\nMarry|Paris|\nMarry|Paris|"))
  {
    hide *;
    DeleteSent();
    DeleteApplied();
    AtInput(files, d, Delete("people", COND), DELETE);
    FileOfTwo("Marry", "Paris", "Marry", "Paris");
    assert HEADER + "\nMarry|Paris|\nMarry|Paris|"
      == HEADER + "\n" + ("Marry" + "|" + "Paris" + "|") + "\n" + ("Marry" + "|" + "Paris" + "|");
  }
}
