/** The scanning loops of the text driver (text_driver.c), each against a plain description of its result. */
module TextLexer {
  import opened CStrings

  /** What follows keyword `k` and one blank at the start of `s`, leading blanks ignored. */
  function AfterKeyword(s: string, k: string): Option<string> {
    var t := SkipBlanks(s);
    if k + " " <= t then Some(t[|k| + 1..]) else None
  }

  lemma AfterKeywordFound(k: string, rest: string)
    requires k != "" && k[0] != ' '
    ensures AfterKeyword(k + " " + rest, k) == Some(rest)
    ensures AfterKeyword(" " + k + " " + rest, k) == Some(rest)
  {
    var s := k + " " + rest;
    SkipBlanksAt(s, 0);
    SkipBlanksAt(" " + k + " " + rest, 1);
    assert s[..|k| + 1] == k + " ";
    assert (" " + k + " " + rest)[1..] == s;
    assert s[|k| + 1..] == rest;
  }

  /** Text that starts with another word has no keyword there. */
  lemma AfterKeywordOther(w: string, k: string, rest: string)
    requires w != "" && w[0] != ' ' && k != "" && k[0] != w[0]
    ensures AfterKeyword(w + rest, k) == None
  {
    SkipBlanksAt(w + rest, 0);
    assert (w + rest)[0] == w[0];
    assert (k + " ")[0] == k[0];
  }

  /** `j` blanks of `requete` skipped and `i` characters of `buffer` matched after them. */
  predicate Matched(requete: string, buffer: string, i: nat, j: nat) {
    i + j <= |requete| && i <= |buffer|
    && (forall k | 0 <= k < j :: requete[k] == ' ')
    && (forall k | 0 <= k < i :: requete[j + k] == buffer[k])
  }

  /**
    The C loop reads past both terminators when the text is the keyword and nothing more, so
    callers keep away from that case.
   */
  method Cherche(requete: string, buffer: string) returns (r: Option<string>)
    requires NulFree(requete) && NulFree(buffer)
    requires SkipBlanks(requete) != buffer && ' ' !in buffer && buffer != ""
    ensures r == AfterKeyword(requete, buffer)
    ensures r.Some? ==> NulFree(r.value)
  {
    hide Matched, SkipBlanks, AfterKeyword;
    var i, j := 0, 0;
    var test, ok := 1, 0;
    MatchedBounds(requete, buffer, 0, 0);
    while test == 1
      invariant Matched(requete, buffer, i, j) && i + j <= |requete| && i <= |buffer|
      invariant ok == (if i == 0 then 0 else 1) && test in {-1, 0, 1}
      invariant test == 0 ==> i == |buffer| && At(requete, i + j) == ' '
      invariant test == -1 ==> At(requete, i + j) != (if i == |buffer| then ' ' else buffer[i])
      invariant test == -1 && i == 0 ==> At(requete, j) != ' '
      decreases |requete| - j + |buffer| - i + (if test == 1 then 1 else 0)
    {
      if At(requete, j) == ' ' && ok == 0 {
        MatchedBlank(requete, buffer, j);
        j := j + 1;
      } else if At(requete, i + j) == At(buffer, i) {
        MatchedMore(requete, buffer, i, j);
        i := i + 1;
        ok := 1;
      } else if ok == 1 && At(requete, i + j) == ' ' && At(buffer, i) == '\0' {
        test := 0;
      } else if At(requete, i + j) != At(buffer, i) {
        test := -1;
      }
    }
    if test == -1 {
      ChercheMiss(requete, buffer, i, j);
      return None;
    } else {
      ChercheHit(requete, buffer, i, j);
      return Some(requete[i + j + 1..]);
    }
  }

  lemma MatchedBounds(requete: string, buffer: string, i: nat, j: nat)
    ensures Matched(requete, buffer, 0, 0)
    ensures Matched(requete, buffer, i, j) ==> i + j <= |requete| && i <= |buffer|
  {
  }

  lemma MatchedBlank(requete: string, buffer: string, j: nat)
    requires Matched(requete, buffer, 0, j) && At(requete, j) == ' '
    ensures j < |requete| && Matched(requete, buffer, 0, j + 1)
  {
  }

  lemma MatchedMore(requete: string, buffer: string, i: nat, j: nat)
    requires NulFree(requete) && NulFree(buffer)
    requires SkipBlanks(requete) != buffer && buffer != "" && ' ' !in buffer
    requires Matched(requete, buffer, i, j) && i + j <= |requete| && i <= |buffer|
    requires At(requete, i + j) == At(buffer, i)
    ensures i + j < |requete| && i < |buffer| && Matched(requete, buffer, i + 1, j)
  {
    hide SkipBlanks;
    FullMatchOnly(requete, buffer, i, j);
    assert requete[j + i] == buffer[i];
  }

  /** The two terminators never meet, so a matching step stays inside both strings. */
  lemma FullMatchOnly(requete: string, buffer: string, i: nat, j: nat)
    requires NulFree(requete) && NulFree(buffer)
    requires SkipBlanks(requete) != buffer && buffer != "" && ' ' !in buffer
    requires Matched(requete, buffer, i, j) && At(requete, i + j) == At(buffer, i)
    ensures i + j < |requete| && i < |buffer|
  {
    if i == |buffer| && i + j == |requete| { WholeMatch(requete, buffer, i, j); }
  }

  lemma WholeMatch(requete: string, buffer: string, i: nat, j: nat)
    requires buffer != "" && ' ' !in buffer
    requires Matched(requete, buffer, i, j) && i == |buffer|
    ensures SkipBlanks(requete) == requete[j..]
    ensures i + j == |requete| ==> SkipBlanks(requete) == buffer
  {
    assert requete[j + 0] == buffer[0];
    SkipBlanksAt(requete, j);
  }

  lemma ChercheHit(requete: string, buffer: string, i: nat, j: nat)
    requires buffer != "" && ' ' !in buffer
    requires Matched(requete, buffer, i, j) && i == |buffer| && At(requete, i + j) == ' '
    ensures AfterKeyword(requete, buffer) == Some(requete[i + j + 1..])
  {
    WholeMatch(requete, buffer, i, j);
    assert requete[j..][..i + 1] == buffer + " ";
    assert requete[j..][i + 1..] == requete[i + j + 1..];
  }

  lemma ChercheMiss(requete: string, buffer: string, i: nat, j: nat)
    requires buffer != "" && ' ' !in buffer && Matched(requete, buffer, i, j)
    requires At(requete, i + j) != (if i == |buffer| then ' ' else buffer[i])
    requires i == 0 ==> At(requete, j) != ' '
    ensures AfterKeyword(requete, buffer) == None
  {
    if i > 0 { assert requete[j + 0] == buffer[0]; }
    SkipBlanksAt(requete, j);
    var k := buffer + " ";
    assert k[i] == if i == |buffer| then ' ' else buffer[i];
    assert i + j < |requete| ==> requete[j..][i] == requete[i + j];
  }

  /** avant: what stands in front of the first `t`. */
  function Avant(s: string, t: string): Option<string> {
    match Find(s, t)
    case None => None
    case Some(i) => Some(s[..i])
  }

  /** The first `n` pieces of the blank-free text, filled up with empty ones. */
  function Fields(s: string, sep: char, n: nat): (r: seq<string>)
    ensures |r| == n
  {
    Fit(Split(NoBlanks(s), sep), n)
  }

  lemma FieldsOfJoin(pieces: seq<string>, sep: char)
    requires pieces != [] && sep != ' ' && forall p | p in pieces :: sep !in p && ' ' !in p
    ensures Fields(Join(pieces, sep), sep, |pieces|) == pieces
    ensures Split(NoBlanks(Join(pieces, sep)), sep) == pieces
  {
    JoinKeepsOut(pieces, sep, ' ');
    NoBlanksSame(Join(pieces, sep));
    SplitJoin(pieces, sep);
  }

  lemma {:induction false} NoBlanksConcat(a: string, b: string)
    ensures NoBlanks(a + b) == NoBlanks(a) + NoBlanks(b)
  {
    if a == "" {
      assert a + b == b;
    } else {
      assert (a + b)[1..] == a[1..] + b;
      NoBlanksConcat(a[1..], b);
    }
  }

  lemma {:induction false} NoBlanksOfBlanks(s: string)
    requires forall c | c in s :: c == ' '
    ensures NoBlanks(s) == ""
  {
    if s != "" {
      assert s[0] in s && forall c | c in s[1..] :: c in s;
      NoBlanksOfBlanks(s[1..]);
    }
  }

  /** A piece with any blanks around it. */
  predicate Spaced(text: string, piece: string) {
    exists i, j :: 0 <= i <= j <= |text| && text[i..j] == piece
      && (forall c | c in text[..i] :: c == ' ') && forall c | c in text[j..] :: c == ' '
  }

  lemma NoBlanksSpaced(text: string, piece: string)
    requires Spaced(text, piece) && ' ' !in piece
    ensures NoBlanks(text) == piece
  {
    var i, j :| 0 <= i <= j <= |text| && text[i..j] == piece
      && (forall c | c in text[..i] :: c == ' ') && forall c | c in text[j..] :: c == ' ';
    assert text == text[..i] + (piece + text[j..]);
    NoBlanksConcat(text[..i], piece + text[j..]);
    NoBlanksConcat(piece, text[j..]);
    NoBlanksOfBlanks(text[..i]);
    NoBlanksOfBlanks(text[j..]);
    NoBlanksSame(piece);
  }

  lemma {:induction false} NoBlanksJoin(texts: seq<string>, pieces: seq<string>, sep: char)
    requires |texts| == |pieces| && sep != ' ' && forall i | 0 <= i < |texts| :: NoBlanks(texts[i]) == pieces[i]
    ensures NoBlanks(Join(texts, sep)) == Join(pieces, sep)
  {
    hide NoBlanks;
    if |texts| > 1 {
      var rest := Join(texts[1..], sep);
      NoBlanksJoin(texts[1..], pieces[1..], sep);
      NoBlanksConcat(texts[0] + [sep], rest);
      NoBlanksConcat(texts[0], [sep]);
      NoBlanksSame([sep]);
      assert texts[0] + [sep] + rest == Join(texts, sep);
    } else if texts == [] {
      NoBlanksSame("");
    }
  }

  /** A list written with any blanks around its pieces has those pieces as fields, cut or filled up with "". */
  lemma SpacedFields(texts: seq<string>, pieces: seq<string>, sep: char, n: nat)
    requires pieces != [] && |texts| == |pieces| && sep != ' '
    requires forall i | 0 <= i < |texts| :: Spaced(texts[i], pieces[i]) && sep !in pieces[i] && ' ' !in pieces[i]
    ensures forall i | 0 <= i < n :: Fields(Join(texts, sep), sep, n)[i] == if i < |pieces| then pieces[i] else ""
  {
    hide NoBlanks, Spaced, Split, Join;
    forall i | 0 <= i < |texts| ensures NoBlanks(texts[i]) == pieces[i] { NoBlanksSpaced(texts[i], pieces[i]); }
    NoBlanksJoin(texts, pieces, sep);
    SplitJoin(pieces, sep);
  }

  predicate FirstPiece(s: string, sep: char, piece: string, rest: string) {
    || Split(NoBlanks(s), sep) == [piece] + Split(NoBlanks(rest), sep)
    || (Split(NoBlanks(s), sep) == [piece] && rest == "")
  }

  /** Taking one piece off the front and the remaining fields from what is left. */
  lemma FieldsStep(s: string, sep: char, n: nat, piece: string, rest: string)
    requires n > 0
    requires FirstPiece(s, sep, piece, rest)
    ensures Fields(s, sep, n) == [piece] + Fields(rest, sep, n - 1)
  {
  }

  /** `piece` is the beginning of the first piece of `s`, and `rest` is still to be read. */
  predicate Partial(s: string, sep: char, piece: string, rest: string) {
    var r := Split(NoBlanks(rest), sep);
    Split(NoBlanks(s), sep) == [piece + r[0]] + r[1..]
  }

  lemma PartialStart(s: string, sep: char)
    ensures Partial(s, sep, "", s)
  {
    var r := Split(NoBlanks(s), sep);
    assert "" + r[0] == r[0];
  }

  lemma PartialStep(s: string, sep: char, piece: string, rest: string)
    requires Partial(s, sep, piece, rest)
    ensures rest == "" ==> FirstPiece(s, sep, piece, rest)
    ensures rest != "" && rest[0] == ' ' ==> Partial(s, sep, piece, rest[1..])
    ensures rest != "" && rest[0] != ' ' && rest[0] != sep ==> Partial(s, sep, piece + [rest[0]], rest[1..])
    ensures rest != "" && rest[0] != ' ' && rest[0] == sep ==> FirstPiece(s, sep, piece, rest[1..])
  {
    if rest == "" {
      assert piece + "" == piece;
    } else if rest[0] != ' ' {
      assert NoBlanks(rest)[1..] == NoBlanks(rest[1..]);
      var r := Split(NoBlanks(rest[1..]), sep);
      assert piece + ([rest[0]] + r[0]) == piece + [rest[0]] + r[0];
      assert piece + "" == piece;
    }
  }

  /** get_valeurs splits the blank-free text at `sep` and pads or cuts to the requested count. */
  method GetValeurs(buffer: string, sep: char, nbre: nat) returns (result: seq<string>)
    requires NulFree(buffer) && sep != '\0'
    ensures result == Fields(buffer, sep, nbre)
  {
    hide Fields, Partial, FirstPiece, NoBlanks, Split;
    var jb := 0;
    result := [];
    var i := 0;
    while i < nbre
      invariant i <= nbre && |result| == i && jb <= |buffer|
      invariant Fields(buffer, sep, nbre) == result + Fields(buffer[jb..], sep, nbre - i)
    {
      ghost var from := buffer[jb..];
      var piece := "";
      PartialStart(from, sep);
      var test := 1;
      while test == 1
        invariant jb <= |buffer|
        invariant test == 1 ==> Partial(from, sep, piece, buffer[jb..])
        invariant test != 1 ==> FirstPiece(from, sep, piece, buffer[jb..])
        decreases |buffer| - jb + (if test == 1 then 1 else 0)
      {
        var c := At(buffer, jb);
        PartialStep(from, sep, piece, buffer[jb..]);
        assert jb < |buffer| ==> buffer[jb..][1..] == buffer[jb + 1..] && buffer[jb..][0] == c;
        if c != ' ' && c != sep && c != '\0' {
          piece := piece + [c];
          jb := jb + 1;
        } else if c == ' ' {
          jb := jb + 1;
        } else if c == sep {
          jb := jb + 1;
          test := 0;
        } else {
          test := 0;
        }
      }
      FieldsStep(from, sep, nbre - i, piece, buffer[jb..]);
      result := result + [piece];
      i := i + 1;
    }
  }

  /** nbre_champs counts exactly the pieces that splitting at commas gives. */
  method NbreChamps(buffer: string) returns (nbre: nat)
    requires NulFree(buffer)
    ensures nbre == |Split(buffer, ',')|
    ensures Fields(buffer, ',', nbre) == Split(NoBlanks(buffer), ',')
  {
    var i := 0;
    var test := 1;
    nbre := 0;
    while test == 1
      invariant i <= |buffer|
      invariant test == 1 ==> nbre + |Split(buffer[i..], ',')| == |Split(buffer, ',')|
      invariant test != 1 ==> nbre == |Split(buffer, ',')|
      decreases |buffer| - i + (if test == 1 then 1 else 0)
    {
      assert i < |buffer| ==> buffer[i..][1..] == buffer[i + 1..];
      if At(buffer, i) != ',' && At(buffer, i) != '\0' {
        i := i + 1;
      } else if At(buffer, i) == ',' {
        nbre := nbre + 1;
        i := i + 1;
      } else {
        test := 0;
        nbre := nbre + 1;
      }
    }
    SplitCountNoBlanks(buffer, ',');
  }

  lemma {:induction false} SplitCountNoBlanks(s: string, sep: char)
    requires sep != ' '
    ensures |Split(NoBlanks(s), sep)| == |Split(s, sep)|
  {
    if s != "" {
      SplitCountNoBlanks(s[1..], sep);
      assert s[0] != ' ' ==> NoBlanks(s)[1..] == NoBlanks(s[1..]);
    }
  }

  /** The content between the opening quote of `s` and the next quote of the same kind. */
  function Unquote(s: string): Option<string> {
    if s == "" || (s[0] != '"' && s[0] != '\'') then None else
    var i := IndexOf(s[1..], s[0]);
    if i == |s| - 1 then None else Some(s[1..1 + i])
  }

  lemma UnquoteQuoted(v: string, q: char)
    requires q in {'"', '\''} && q !in v
    ensures Unquote([q] + v + [q]) == Some(v)
  {
    var s := [q] + v + [q];
    assert s[1..] == v + [q] + "";
    IndexOfSplit(v, q, "");
  }

  /** The text starts with `v` between two quotes of the kind that `v` does not hold. */
  predicate IsQuoted(s: string, v: string) {
    || ('\'' !in v && "'" + v + "'" <= s)
    || ('"' !in v && "\"" + v + "\"" <= s)
  }

  /** A value is taken out exactly when it stands between quotes at the front of the text. */
  lemma UnquoteMeans(s: string, v: string)
    ensures Unquote(s) == Some(v) <==> IsQuoted(s, v)
    ensures Unquote(s).None? ==> !IsQuoted(s, v)
  {
    hide IndexOf;
    if s != "" && s[0] in {'"', '\''} { QuoteCloses(s, v); }
  }

  lemma QuoteCloses(s: string, v: string)
    requires s != "" && s[0] in {'"', '\''}
    ensures Unquote(s) == Some(v) <==> s[0] !in v && [s[0]] + v + [s[0]] <= s
    ensures Unquote(s).None? <==> s[0] !in s[1..]
  {
    hide IndexOf;
    var q, i := s[0], IndexOf(s[1..], s[0]);
    IndexOfFirst(s[1..], q);
    var quoted := [q] + v + [q];
    if q !in v && quoted <= s {
      assert s[..|v| + 2] == quoted;
      assert forall k | 0 <= k < |v| :: s[1..][k] == quoted[k + 1] == v[k];
      assert s[1..][|v|] == quoted[|v| + 1] == q;
      IndexOfIs(s[1..], q, |v|);
      assert s[1..1 + i] == v;
    }
    if Unquote(s) == Some(v) {
      assert s[1..][i] == q;
      assert forall k | 0 <= k < i :: v[k] == s[1..][k];
      assert s[..i + 2] == quoted;
    }
  }

  method Enleve(buffer: string) returns (r: Option<string>)
    requires NulFree(buffer)
    ensures r == Unquote(buffer)
  {
    var result := "";
    var i := 0;
    if At(buffer, 0) == '"' {
      while At(buffer, i + 1) != '"' && At(buffer, i + 1) != '\0'
        invariant i < |buffer| && result == buffer[1..i + 1] && '"' !in result
        decreases |buffer| - i
      {
        result := result + [buffer[i + 1]];
        i := i + 1;
      }
      IndexOfSlice(buffer, '"', 1, i + 1);
      if At(buffer, i + 1) == '\0' {
        return None;
      } else {
        return Some(result);
      }
    }
    if At(buffer, 0) == '\'' {
      while At(buffer, i + 1) != '\'' && At(buffer, i + 1) != '\0'
        invariant i < |buffer| && result == buffer[1..i + 1] && '\'' !in result
        decreases |buffer| - i
      {
        result := result + [buffer[i + 1]];
        i := i + 1;
      }
      IndexOfSlice(buffer, '\'', 1, i + 1);
      if At(buffer, i + 1) == '\0' {
        return None;
      } else {
        return Some(result);
      }
    } else {
      return None;
    }
  }

  lemma IndexOfSlice(s: string, c: char, a: nat, b: nat)
    requires a <= b <= |s| && c !in s[a..b] && (b < |s| ==> s[b] == c)
    ensures IndexOf(s[a..], c) == b - a
  {
    assert forall k | 0 <= k < b - a :: s[a..][k] == s[a..b][k] != c;
    IndexOfIs(s[a..], c, b - a);
  }

  /** The content of the parentheses that follow any blanks. */
  function InParentheses(s: string): Option<string> {
    var t := SkipBlanks(s);
    if t == "" || t[0] != '(' then None else
    var i := IndexOf(t[1..], ')');
    if i == |t| - 1 then None else Some(t[1..1 + i])
  }

  lemma InParenthesesOf(v: string)
    requires ')' !in v
    ensures InParentheses("(" + v + ")") == Some(v)
  {
    var s := "(" + v + ")";
    SkipBlanksAt(s, 0);
    assert s[1..] == v + ")" + "";
    IndexOfSplit(v, ')', "");
  }

  lemma ParenthesisCloses(buffer: string, start: nat, i: nat)
    requires start <= i < |buffer|
    requires ')' !in buffer[start + 1..i + 1] && (i + 1 < |buffer| ==> buffer[i + 1] == ')')
    ensures IndexOf(buffer[start..][1..], ')') == i - start
  {
    hide IndexOf;
    assert buffer[start..][1..] == buffer[start + 1..];
    IndexOfSlice(buffer, ')', start + 1, i + 1);
  }

  lemma InParenthesesReached(buffer: string, start: nat, i: nat)
    requires start <= i < |buffer| && SkipBlanks(buffer) == buffer[start..] && buffer[start] == '('
    requires IndexOf(buffer[start..][1..], ')') == i - start
    ensures InParentheses(buffer) == if i + 1 == |buffer| then None else Some(buffer[start + 1..i + 1])
  {
    hide SkipBlanks, IndexOf;
    SliceOfDrop(buffer, start, 1, 1 + i - start);
  }

  method EnlevePar(buffer: string) returns (r: Option<string>)
    requires NulFree(buffer)
    ensures r == InParentheses(buffer)
    ensures r.Some? ==> NulFree(r.value)
  {
    hide SkipBlanks, IndexOf;
    var i := 0;
    while At(buffer, i) == ' '
      invariant i <= |buffer| && forall k | 0 <= k < i :: buffer[k] == ' '
      decreases |buffer| - i
    {
      i := i + 1;
    }
    SkipBlanksAt(buffer, i);
    ghost var t := buffer[i..];
    ghost var start := i;
    if At(buffer, i) == '(' {
      var result := "";
      while At(buffer, i + 1) != ')' && At(buffer, i + 1) != '\0'
        invariant start <= i < |buffer|
        invariant result == buffer[start + 1..i + 1] && ')' !in result
        decreases |buffer| - i
      {
        result := result + [buffer[i + 1]];
        i := i + 1;
      }
      ParenthesisCloses(buffer, start, i);
      InParenthesesReached(buffer, start, i);
      if At(buffer, i + 1) == '\0' {
        return None;
      } else {
        return Some(result);
      }
    } else {
      return None;
    }
  }
}
