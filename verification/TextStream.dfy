/**
  Files as the text driver sees them: `fscanf("%s")` on a stream with an end-of-file flag
  (ISO/IEC 9899:2011, sections 7.21.6.2 and 7.21.10.2), and a disk of named texts to print to.
 */
module TextStream {
  import opened CStrings

  function WordLength(s: string): (n: nat)
    ensures n <= |s|
  {
    if s == "" || IsWhite(s[0]) then 0 else 1 + WordLength(s[1..])
  }

  /** One `fscanf(f, "%s", buffer)`: the new buffer and what is left; without a word the buffer stays. */
  function ReadWord(s: string, buffer: string): (string, string) {
    var t := SkipWhite(s);
    if t == "" then (buffer, "") else (t[..WordLength(t)], t[WordLength(t)..])
  }

  /** The maximal runs of characters that are not white space. */
  function Words(s: string): seq<string>
    decreases |s|
  {
    var t := SkipWhite(s);
    if t == "" then [] else [t[..WordLength(t)]] + Words(t[WordLength(t)..])
  }

  /** The text is empty or ends in white space, so reading its last word does not meet the end. */
  predicate Dangling(s: string) {
    s == "" || IsWhite(s[|s| - 1])
  }

  function LastOr<T>(s: seq<T>, default: T): T {
    if s == [] then default else s[|s| - 1]
  }

  /**
    The successive buffer contents of `while (!feof(f)) fscanf(f, "%s", buffer)`, with `stale`
    in the buffer at the start: on a dangling text the last content is seen a second time.
   */
  function Reads(s: string, stale: string): seq<string> {
    Words(s) + if Dangling(s) then [LastOr(Words(s), stale)] else []
  }

  /** The same loop when the buffer is cleared before each read. */
  function ReadsCleared(s: string): seq<string> {
    Words(s) + if Dangling(s) then [""] else []
  }

  lemma {:induction false} SkipWhiteParts(s: string)
    ensures var t := SkipWhite(s);
      t == s[|s| - |t|..] && (t == "" ==> Dangling(s)) && (t != "" ==> |t| <= |s| && t[|t| - 1] == s[|s| - 1])
  {
    if s != "" && IsWhite(s[0]) { SkipWhiteParts(s[1..]); }
  }

  lemma {:induction false} WordLengthPart(s: string)
    ensures var n := WordLength(s);
      (forall k | 0 <= k < n :: !IsWhite(s[k])) && (n < |s| ==> IsWhite(s[n]))
  {
    if s != "" && !IsWhite(s[0]) {
      WordLengthPart(s[1..]);
      assert forall k | 1 <= k < |s| :: s[k] == s[1..][k - 1];
    }
  }

  lemma WordsUnfold(s: string)
    requires SkipWhite(s) != ""
    ensures Words(s) == [ReadWord(s, "").0] + Words(ReadWord(s, "").1)
    ensures Words("") == []
  {
  }

  /** Taking a word off a text does not change how it ends, unless the word was its end. */
  lemma DanglingUnfold(s: string)
    requires SkipWhite(s) != ""
    ensures var rest := ReadWord(s, "").1;
      if rest == "" then !Dangling(s) else Dangling(s) <==> Dangling(rest)
  {
    hide SkipWhite, WordLength, IsWhite;
    SkipWhiteParts(s);
    var t := SkipWhite(s);
    WordLengthPart(t);
    var n := WordLength(t);
    assert n < |t| ==> t[n..][|t| - n - 1] == t[|t| - 1];
  }

  /** The words of a text, one word taken. */
  lemma WordsStep(s: string)
    requires SkipWhite(s) != ""
    ensures var (b, rest) := ReadWord(s, "");
      Words(s) == [b] + Words(rest) && (rest != "" ==> (Dangling(s) <==> Dangling(rest)))
      && (rest == "" ==> Words(rest) == [] && !Dangling(s))
  {
    hide SkipWhite, ReadWord, Words, Dangling;
    WordsUnfold(s);
    DanglingUnfold(s);
  }

  lemma NoWords(s: string)
    requires SkipWhite(s) == ""
    ensures Words(s) == [] && Dangling(s)
  {
    SkipWhiteParts(s);
  }

  /** The read loops, one read at a time. */
  lemma ReadsStep(s: string, stale: string)
    ensures var (b, rest) := ReadWord(s, stale);
      Reads(s, stale) == [b] + (if rest == "" then [] else Reads(rest, b))
    ensures var (b, rest) := ReadWord(s, "");
      ReadsCleared(s) == [b] + (if rest == "" then [] else ReadsCleared(rest))
  {
    hide SkipWhite, WordLength, Words, Dangling;
    if SkipWhite(s) == "" {
      NoWords(s);
    } else {
      WordsStep(s);
      var (b, rest) := ReadWord(s, "");
      var ws := Words(rest);
      LastOfCons(b, ws, stale);
      ConsAssoc(b, ws, [LastOr(ws, b)]);
      ConsAssoc(b, ws, [""]);
    }
  }

  lemma LastOfCons(b: string, ws: seq<string>, stale: string)
    ensures LastOr([b] + ws, stale) == LastOr(ws, b)
  {
    assert ws != [] ==> ([b] + ws)[|ws|] == ws[|ws| - 1];
  }

  lemma ConsAssoc(b: string, ws: seq<string>, extra: seq<string>)
    ensures [b] + ws + extra == [b] + (ws + extra) && [b] + ws + [] == [b] + (ws + [])
  {
  }

  /** Text that one `%s` conversion reads back. */
  predicate IsWord(w: string) {
    w != "" && forall c | c in w :: !IsWhite(c)
  }

  lemma {:induction false} ReadWordFront(w: string, rest: string, buffer: string)
    requires IsWord(w) && (rest != "" ==> IsWhite(rest[0]))
    ensures ReadWord(w + rest, buffer) == (w, rest)
  {
    WordLengthConcat(w, rest);
    assert (w + rest)[0] == w[0];
    assert (w + rest)[..|w|] == w && (w + rest)[|w|..] == rest;
  }

  /**
    What `%s` takes: leading white space is skipped, and the word goes up to the next white
    space or the end; of white space alone nothing is taken.
   */
  lemma {:induction false} ReadWordMeans(blanks: string, w: string, rest: string, buffer: string)
    requires forall c | c in blanks :: c in " \t\n\r\U{0B}\U{0C}"
    requires forall c | c in w :: c !in " \t\n\r\U{0B}\U{0C}"
    requires rest != "" ==> w != "" && rest[0] in " \t\n\r\U{0B}\U{0C}"
    ensures ReadWord(blanks + w + rest, buffer) == if w == "" then (buffer, "") else (w, rest)
  {
    assert forall c :: IsWhite(c) <==> c in " \t\n\r\U{0B}\U{0C}";
    var s := blanks + w + rest;
    if blanks != "" {
      assert s[1..] == blanks[1..] + w + rest && s[0] == blanks[0];
      ReadWordMeans(blanks[1..], w, rest, buffer);
    } else {
      assert s == w + rest;
      if w != "" { ReadWordFront(w, rest, buffer); }
    }
  }

  lemma {:induction false} WordLengthConcat(w: string, rest: string)
    requires (forall c | c in w :: !IsWhite(c)) && (rest != "" ==> IsWhite(rest[0]))
    ensures WordLength(w + rest) == |w|
  {
    if w == "" {
      assert w + rest == rest;
    } else {
      assert (w + rest)[1..] == w[1..] + rest && (w + rest)[0] == w[0];
      WordLengthConcat(w[1..], rest);
    }
  }

  lemma ReadWordAfterNewline(s: string, buffer: string)
    ensures ReadWord("\n" + s, buffer) == ReadWord(s, buffer)
    ensures Words("\n" + s) == Words(s)
  {
    assert ("\n" + s)[1..] == s;
  }

  lemma WordsFront(w: string, rest: string)
    requires IsWord(w) && (rest != "" ==> IsWhite(rest[0]))
    ensures Words(w + rest) == [w] + Words(rest)
  {
    hide WordLength;
    ReadWordFront(w, rest, "");
    assert (w + rest)[0] == w[0] && w[0] in w;
  }

  // ---- Printed lines ----

  /** Every line with a newline in front, as in the table files. */
  function Prefixed(lines: seq<string>): string {
    if lines == [] then "" else "\n" + lines[0] + Prefixed(lines[1..])
  }

  /** Every line with a newline behind it. */
  function Terminated(lines: seq<string>): string {
    if lines == [] then "" else Terminated(lines[..|lines| - 1]) + lines[|lines| - 1] + "\n"
  }

  /** Newlines between the lines only. */
  function Joined(lines: seq<string>): string {
    if lines == [] then "" else Terminated(lines[..|lines| - 1]) + lines[|lines| - 1]
  }

  lemma {:induction false} PrefixedAppend(lines: seq<string>, line: string)
    ensures Prefixed(lines + [line]) == Prefixed(lines) + "\n" + line
  {
    if lines == [] {
      assert [line][1..] == [];
      assert "\n" + line + "" == "\n" + line;
    } else {
      assert (lines + [line])[1..] == lines[1..] + [line];
      PrefixedAppend(lines[1..], line);
    }
  }

  lemma TerminatedAppend(lines: seq<string>, line: string)
    ensures Terminated(lines + [line]) == Terminated(lines) + line + "\n"
    ensures Joined(lines + [line]) == Terminated(lines) + line
  {
    assert (lines + [line])[..|lines|] == lines;
  }

  lemma {:induction false} TerminatedFront(lines: seq<string>)
    requires lines != []
    ensures Terminated(lines) == lines[0] + "\n" + Terminated(lines[1..])
    ensures |lines| > 1 ==> Joined(lines) == lines[0] + "\n" + Joined(lines[1..])
    decreases |lines|
  {
    var k := |lines| - 1;
    TerminatedLast(lines);
    if k > 0 {
      TerminatedFront(lines[..k]);
      TerminatedLast(lines[1..]);
      hide Terminated, Joined;
      assert lines[..k][1..] == lines[1..][..k - 1];
      var middle := Terminated(lines[1..][..k - 1]);
      assert lines[0] + "\n" + middle + lines[k] + "\n" == lines[0] + "\n" + (middle + lines[k] + "\n");
      assert lines[0] + "\n" + middle + lines[k] == lines[0] + "\n" + (middle + lines[k]);
    } else {
      assert "" + lines[0] + "\n" == lines[0] + "\n" + "";
    }
  }

  lemma TerminatedLast(lines: seq<string>)
    requires lines != []
    ensures var k := |lines| - 1;
      Terminated(lines) == Terminated(lines[..k]) + lines[k] + "\n"
      && Joined(lines) == Terminated(lines[..k]) + lines[k]
  {
  }

  predicate AreWords(lines: seq<string>) {
    forall l | l in lines :: IsWord(l)
  }

  lemma {:induction false} PrefixedRead(lines: seq<string>)
    requires AreWords(lines)
    ensures Words(Prefixed(lines)) == lines && (Dangling(Prefixed(lines)) <==> lines == [])
  {
    hide IsWord, Words, Dangling;
    NothingRead();
    if lines != [] {
      var rest := Prefixed(lines[1..]);
      PrefixedRead(lines[1..]);
      assert "\n" + lines[0] + rest == "\n" + (lines[0] + rest);
      ReadWordAfterNewline(lines[0] + rest, "");
      assert lines[0] in lines;
      WordsFront(lines[0], rest);
      EndOfConcat("\n" + lines[0], rest, lines[0]);
    }
  }

  lemma NothingRead()
    ensures Words("") == [] && Dangling("") && Joined([]) == Terminated([]) == ""
  {
  }

  lemma NewlineDangling(tail: string)
    ensures Dangling("\n" + tail) <==> Dangling(tail)
  {
    assert tail != "" ==> ("\n" + tail)[|tail|] == tail[|tail| - 1];
  }

  lemma EndOfConcat(a: string, rest: string, w: string)
    requires IsWord(w) && |a| >= |w| && a[|a| - |w|..] == w
    ensures rest == "" ==> !Dangling(a + rest)
    ensures rest != "" ==> (Dangling(a + rest) <==> Dangling(rest))
  {
    assert w[|w| - 1] in w;
    assert a[|a| - |w|..][|w| - 1] == a[|a| - 1];
  }

  /** A table file written line by line is read back line by line, nothing added and nothing lost. */
  lemma ReadsPrefixed(lines: seq<string>, stale: string)
    requires AreWords(lines) && lines != []
    ensures Reads(Prefixed(lines), stale) == lines && ReadsCleared(Prefixed(lines)) == lines
  {
    PrefixedRead(lines);
  }

  lemma JoinedOne(lines: seq<string>)
    requires |lines| == 1
    ensures Joined(lines) == lines[0] + "" && lines == [lines[0]]
  {
    assert lines[..0] == [] && Joined(lines) == "" + lines[0];
  }

  lemma {:induction false} JoinedRead(lines: seq<string>)
    requires AreWords(lines)
    ensures Words(Joined(lines)) == lines && (Dangling(Joined(lines)) <==> lines == [])
  {
    hide IsWord, Words, Dangling, Joined, Terminated;
    NothingRead();
    if |lines| == 1 {
      assert lines[0] in lines;
      JoinedOne(lines);
      WordsFront(lines[0], "");
      EndOfConcat(lines[0], "", lines[0]);
    } else if |lines| > 1 {
      TerminatedFront(lines);
      JoinedRead(lines[1..]);
      var tail := Joined(lines[1..]);
      var rest := "\n" + tail;
      assert lines[0] in lines;
      assert Joined(lines) == lines[0] + rest;
      WordsFront(lines[0], rest);
      ReadWordAfterNewline(tail, "");
      NewlineDangling(tail);
      EndOfConcat(lines[0], rest, lines[0]);
    }
  }

  lemma {:induction false} TerminatedRead(lines: seq<string>)
    requires AreWords(lines)
    ensures Words(Terminated(lines)) == lines && Dangling(Terminated(lines))
  {
    hide IsWord, Words, Dangling, Terminated;
    NothingRead();
    if lines != [] {
      TerminatedFront(lines);
      TerminatedRead(lines[1..]);
      var tail := Terminated(lines[1..]);
      var rest := "\n" + tail;
      assert lines[0] in lines;
      assert Terminated(lines) == lines[0] + rest;
      WordsFront(lines[0], rest);
      ReadWordAfterNewline(tail, "");
      NewlineDangling(tail);
      EndOfConcat(lines[0], rest, lines[0]);
    }
  }

  /** Reading a temporary file: without a last newline it is exact, with one the last line comes twice. */
  lemma ReadsTemporary(lines: seq<string>, stale: string)
    requires AreWords(lines)
    ensures Reads(Joined(lines), stale) == if lines == [] then [stale] else lines
    ensures Reads(Terminated(lines), stale) == lines + [LastOr(lines, stale)]
  {
    JoinedRead(lines);
    TerminatedRead(lines);
  }

  // ---- The state ----

  class Stream {
    const text: string
    var pos: nat
    var eof: bool

    ghost predicate Valid()
      reads this
    {
      pos <= |text|
    }

    ghost function Rest(): string
      reads this
      requires Valid()
    {
      text[pos..]
    }

    constructor (text: string)
      ensures this.text == text && Valid() && Rest() == text && !eof
    {
      this.text := text;
      pos := 0;
      eof := false;
    }

    /** `fscanf(f, "%s", buffer)`, called with the end not yet met. */
    method Fscanf(buffer: string) returns (b: string)
      requires Valid() && !eof
      modifies this
      ensures Valid() && (b, Rest()) == ReadWord(old(Rest()), buffer)
      ensures eof <==> Rest() == ""
      ensures NulFree(text) && NulFree(buffer) ==> NulFree(b)
    {
      var (word, rest) := ReadWord(text[pos..], buffer);
      ReadWordRest(text, pos, buffer);
      b := word;
      pos := |text| - |rest|;
      eof := rest == "";
    }
  }

  lemma ReadWordRest(text: string, pos: nat, buffer: string)
    requires pos <= |text|
    ensures var rest := ReadWord(text[pos..], buffer).1; |rest| <= |text| && rest == text[|text| - |rest|..]
    ensures NulFree(text) && NulFree(buffer) ==> NulFree(ReadWord(text[pos..], buffer).0)
  {
    SkipWhiteParts(text[pos..]);
  }

  class Disk {
    var files: map<string, string>

    constructor (files: map<string, string>)
      ensures this.files == files
    {
      this.files := files;
    }

    /** `fopen(name, "w")`. */
    method Create(name: string)
      modifies this
      ensures files == old(files)[name := ""]
    {
      files := files[name := ""];
    }

    /** `fprintf` to a stream opened for writing or appending. */
    method Fprintf(name: string, text: string)
      requires name in files
      modifies this
      ensures files == old(files)[name := old(files)[name] + text]
    {
      files := files[name := files[name] + text];
    }

    method Unlink(name: string)
      modifies this
      ensures files == old(files) - {name}
    {
      files := files - {name};
    }
  }
}
