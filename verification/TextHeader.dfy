/** The first line of a text table, `{name}|{name}|`, and its parser (text_driver.c). */
module TextHeader {
  import opened CStrings
  import opened TextLexer

  /** `count` is what nbre_entete returns; HeaderExit is the call of exit on a changed separator. */
  datatype Header = Header(sep: char, names: seq<string>, count: nat) | BadHeader | HeaderExit

  function Group(name: string, sep: char): string {
    "{" + name + "}" + [sep]
  }

  function HeaderLine(names: seq<string>, sep: char): string {
    if names == [] then "" else Group(names[0], sep) + HeaderLine(names[1..], sep)
  }

  predicate ValidName(name: string, sep: char) {
    '}' !in name && sep !in name && NulFree(name)
  }

  predicate ValidNames(names: seq<string>, sep: char) {
    names != [] && sep !in {'{', '}', '\0'} && forall n | n in names :: ValidName(n, sep)
  }

  /** The text before the first closing brace, counted from the second character. */
  function Closing(w: string): (i: nat)
    requires w != ""
    ensures i + 1 <= |w|
  {
    IndexOf(w[1..], '}')
  }

  lemma ClosingIs(w: string, i: nat)
    requires i + 1 <= |w| && '}' !in w[1..i + 1] && (i + 1 < |w| ==> w[i + 1] == '}')
    ensures w != "" && Closing(w) == i
  {
    IndexOfSlice(w, '}', 1, i + 1);
  }

  datatype Groups = Names(names: seq<string>) | Bad | Exit

  /** The names of a text that is nothing but groups with the given separator. */
  function ReadGroups(w: string, sep: char): Groups {
    if w == "" || w[0] != '{' then Bad else
    var i := Closing(w);
    if i + 1 == |w| then Bad
    else if At(w, i + 2) != sep then Exit
    else if i + 3 >= |w| then Names([w[1..i + 1]])
    else match ReadGroups(w[i + 3..], sep)
         case Names(rest) => Names([w[1..i + 1]] + rest)
         case other => other
  }

  /** A header that ends at its first closing brace makes nbre_entete run past the text. */
  predicate HeaderDefined(w: string) {
    NulFree(w) && (w != "" && w[0] == '{' ==> Closing(w) + 2 != |w|)
  }

  function ParseHeader(w: string): Header
    requires HeaderDefined(w)
  {
    if w == "" || w[0] != '{' || Closing(w) + 1 == |w| then BadHeader else
    var sep := w[Closing(w) + 2];
    match ReadGroups(w, sep)
    case Names(names) => Header(sep, names, |Split(w, sep)| - 1)
    case Bad => BadHeader
    case Exit => HeaderExit
  }

  /** nbre_entete counts the separators. */
  method NbreEntete(buffer: string, sep: char) returns (nbre: nat)
    requires NulFree(buffer) && sep != '\0'
    ensures nbre == |Split(buffer, sep)| - 1
  {
    var i := 0;
    var test := 1;
    nbre := 0;
    while test == 1
      invariant i <= |buffer|
      invariant nbre + |Split(buffer[i..], sep)| == |Split(buffer, sep)|
      invariant test != 1 ==> i == |buffer|
      decreases |buffer| - i + (if test == 1 then 1 else 0)
    {
      assert i < |buffer| ==> buffer[i..][1..] == buffer[i + 1..];
      if At(buffer, i) != sep && At(buffer, i) != '\0' {
        i := i + 1;
      } else if At(buffer, i) == sep {
        nbre := nbre + 1;
        i := i + 1;
      } else {
        test := 0;
      }
    }
  }

  /** The scanning loop of trait_entete: the name in front of the closing brace, if there is one. */
  method ReadName(buffer: string) returns (i: nat, result: string)
    requires NulFree(buffer) && buffer != ""
    ensures i == Closing(buffer) && result == buffer[1..i + 1]
  {
    i := 0;
    result := "";
    while At(buffer, i + 1) != '}' && At(buffer, i + 1) != '\0'
      invariant i < |buffer| && result == buffer[1..i + 1] && '}' !in result
      decreases |buffer| - i
    {
      result := result + [buffer[i + 1]];
      i := i + 1;
    }
    ClosingIs(buffer, i);
  }

  method TraitEntete(entete: string) returns (r: Header)
    requires HeaderDefined(entete)
    ensures r == ParseHeader(entete)
    ensures r.Header? ==> r.sep != '\0'
  {
    hide Closing, Split, ReadGroups;
    if At(entete, 0) != '{' {
      return BadHeader;
    }
    var i, result := ReadName(entete);
    if i + 1 == |entete| {
      return BadHeader;
    }
    var sep := At(entete, i + 2);
    var nbreCh := NbreEntete(entete, sep);
    var champs := [];
    var buffer := entete;
    var test := 1;
    ReadGroupsStart(entete, sep);
    while test == 1
      invariant NulFree(buffer)
      invariant test == 1 ==> ReadGroups(entete, sep) == Prepend(champs, ReadGroups(buffer, sep))
      invariant test != 1 ==> ReadGroups(entete, sep) == Names(champs)
      decreases |buffer| + (if test == 1 then 1 else 0)
    {
      if At(buffer, 0) == '{' {
        i, result := ReadName(buffer);
        ReadGroupsStep(buffer, sep, champs, i);
        if i + 1 == |buffer| {
          return BadHeader;
        } else if At(buffer, i + 2) != sep {
          return HeaderExit;
        }
        champs := champs + [result];
        if At(buffer, i + 3) == '\0' {
          test := 0;
        } else {
          buffer := buffer[i + 3..];
        }
      } else {
        ReadGroupsBad(buffer, sep);
        return BadHeader;
      }
    }
    return Header(sep, champs, nbreCh);
  }

  function Prepend(names: seq<string>, g: Groups): Groups {
    match g case Names(rest) => Names(names + rest) case other => other
  }

  lemma ReadGroupsStart(w: string, sep: char)
    ensures Prepend([], ReadGroups(w, sep)) == ReadGroups(w, sep)
  {
    hide ReadGroups;
    assert ReadGroups(w, sep).Names? ==> [] + ReadGroups(w, sep).names == ReadGroups(w, sep).names;
  }

  lemma ReadGroupsBad(w: string, sep: char)
    requires w == "" || w[0] != '{'
    ensures ReadGroups(w, sep) == Bad
  {
  }

  lemma ReadGroupsStep(w: string, sep: char, champs: seq<string>, i: nat)
    requires w != "" && w[0] == '{' && i == Closing(w) && sep != '\0' && NulFree(w)
    ensures i + 1 == |w| ==> ReadGroups(w, sep) == Bad
    ensures i + 1 < |w| ==> i + 2 <= |w| && w[i + 1] == '}' && (At(w, i + 2) != sep ==> ReadGroups(w, sep) == Exit)
    ensures i + 1 < |w| && At(w, i + 2) == sep ==> i + 3 <= |w|
    ensures i + 1 < |w| && At(w, i + 2) == sep && i + 3 == |w| ==>
      Prepend(champs, ReadGroups(w, sep)) == Names(champs + [w[1..i + 1]])
    ensures i + 1 < |w| && At(w, i + 2) == sep && i + 3 < |w| ==>
      Prepend(champs, ReadGroups(w, sep)) == Prepend(champs + [w[1..i + 1]], ReadGroups(w[i + 3..], sep))
  {
    IndexOfFirst(w[1..], '}');
    if i + 1 < |w| && At(w, i + 2) == sep && i + 3 < |w| {
      var g := ReadGroups(w[i + 3..], sep);
      assert g.Names? ==> champs + ([w[1..i + 1]] + g.names) == champs + [w[1..i + 1]] + g.names;
    }
  }

  // ---- Round trips ----

  lemma {:induction false} ReadGroupsOfLine(names: seq<string>, sep: char)
    requires ValidNames(names, sep)
    ensures ReadGroups(HeaderLine(names, sep), sep) == Names(names)
    ensures |Split(HeaderLine(names, sep), sep)| == |names| + 1
    ensures NulFree(HeaderLine(names, sep))
  {
    var name := names[0];
    var rest := HeaderLine(names[1..], sep);
    var w := HeaderLine(names, sep);
    GroupShape(name, sep, rest);
    assert w == "{" + name + "}" + [sep] + rest;
    SplitPiece("{" + name + "}", sep, rest);
    if |names| > 1 {
      ReadGroupsOfLine(names[1..], sep);
      assert names == [name] + names[1..];
    }
  }

  lemma GroupShape(name: string, sep: char, rest: string)
    requires ValidName(name, sep) && sep !in {'{', '}', '\0'}
    ensures var w := Group(name, sep) + rest;
      w[0] == '{' && Closing(w) == |name| && w[1..|name| + 1] == name && At(w, |name| + 2) == sep
      && w[|name| + 3..] == rest
  {
    var w := Group(name, sep) + rest;
    assert w[1..|name| + 1] == name;
    ClosingIs(w, |name|);
  }

  /** Parsing what the rewrite loop prints gives back the names and the separator; the count is right. */
  lemma HeaderRoundTrip(names: seq<string>, sep: char)
    requires ValidNames(names, sep)
    ensures var w := HeaderLine(names, sep);
      HeaderDefined(w) && ParseHeader(w) == Header(sep, names, |names|)
  {
    var rest := HeaderLine(names[1..], sep);
    GroupShape(names[0], sep, rest);
    ReadGroupsOfLine(names, sep);
  }

  lemma GroupTaken(w: string, sep: char, i: nat)
    requires i + 3 <= |w| && w[0] == '{' && w[i + 1] == '}' && w[i + 2] == sep
    ensures w == Group(w[1..i + 1], sep) + w[i + 3..]
  {
    assert w == [w[0]] + w[1..i + 1] + [w[i + 1]] + [w[i + 2]] + w[i + 3..];
  }

  /** Every accepted header is the print of its parse, so rewriting a table keeps the header as it was. */
  lemma {:induction false} AcceptedHeaderReprints(w: string, sep: char)
    requires ReadGroups(w, sep).Names? && sep != '\0' && NulFree(w)
    ensures HeaderLine(ReadGroups(w, sep).names, sep) == w
    ensures ReadGroups(w, sep).names != []
    ensures forall n | n in ReadGroups(w, sep).names :: '}' !in n && NulFree(n)
    decreases |w|
  {
    var i := Closing(w);
    IndexOfFirst(w[1..], '}');
    hide IndexOf;
    var name := w[1..i + 1];
    var rest := w[i + 3..];
    GroupTaken(w, sep, i);
    assert '}' !in name by {
      assert forall k | 0 <= k < |name| :: name[k] == w[1..][k];
    }
    if rest != "" {
      AcceptedHeaderReprints(rest, sep);
    }
  }

  /** A header as the program writes it: at least one name, none with a closing brace in it. */
  predicate IsHeader(w: string, names: seq<string>, sep: char) {
    names != [] && (forall n | n in names :: '}' !in n) && w == HeaderLine(names, sep)
  }

  lemma {:induction false} ReadGroupsOfHeader(names: seq<string>, sep: char)
    requires names != [] && (forall n | n in names :: '}' !in n) && sep != '\0'
    ensures ReadGroups(HeaderLine(names, sep), sep) == Names(names)
    decreases |names|
  {
    var name, rest := names[0], HeaderLine(names[1..], sep);
    var w := Group(name, sep) + rest;
    assert w[1..|name| + 1] == name;
    ClosingIs(w, |name|);
    assert w[|name| + 3..] == rest;
    if |names| > 1 {
      ReadGroupsOfHeader(names[1..], sep);
      assert names == [name] + names[1..];
    }
  }

  /** Accepted are exactly the headers as they are written, with names and separator; the names are the only ones. */
  lemma AcceptedAreHeaders(w: string)
    requires HeaderDefined(w)
    ensures ParseHeader(w).Header? <==> exists names, sep :: IsHeader(w, names, sep)
    ensures forall names, sep | IsHeader(w, names, sep) :: ParseHeader(w).Header? && ParseHeader(w).names == names
                                                         && ParseHeader(w).sep == sep
  {
    hide ReadGroups, HeaderLine, Split;
    forall names, sep | IsHeader(w, names, sep)
      ensures ParseHeader(w).Header? && ParseHeader(w).names == names && ParseHeader(w).sep == sep
    {
      HeaderFront(w, names, sep);
      ReadGroupsOfHeader(names, sep);
    }
    if ParseHeader(w).Header? {
      var h := ParseHeader(w);
      AcceptedHeaderReprints(w, h.sep);
      assert IsHeader(w, h.names, h.sep);
    }
  }

  lemma HeaderFront(w: string, names: seq<string>, sep: char)
    requires IsHeader(w, names, sep) && NulFree(w)
    ensures w[0] == '{' && Closing(w) + 2 < |w| && w[Closing(w) + 2] == sep && sep != '\0'
  {
    var name, rest := names[0], HeaderLine(names[1..], sep);
    assert w == Group(name, sep) + rest;
    assert w[1..|name| + 1] == name;
    ClosingIs(w, |name|);
    assert w[|name| + 2] == sep && sep in w;
  }
}
