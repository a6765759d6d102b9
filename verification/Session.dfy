/**
  The sdbd session as two processes joined by two byte channels: the client of sdbd_driver.c
  and the server of sdbd.c.  A write of the client arrives whole; the server's bytes arrive in
  pieces of any size and the client takes them one at a time, so every interleaving is covered.
 */
module Session {
  import opened CStrings
  import opened Wire
  import opened Channels

  datatype Answer = Answer(rows: seq<DbRow>, code: int)

  /**
    `answer(earlier, q)` is what the database says to query `q` after the earlier queries.
    `persistent` tells sdbd_open with sdbd_driver from the one-query connection of sdbd_try.
   */
  datatype Config = Config(url: string, queries: seq<string>, persistent: bool, accepted: bool,
                           answer: (seq<string>, string) -> Answer)

  datatype Client = Connect | AwaitAck | SendUrl | AwaitPlus | AwaitZero | Ready | Reading(d: Decoder) | Closed

  /** Writing carries the bytes still to be written and what the server does after them. */
  datatype Server = ReadUrl | ReadOpenUrl | ReadQuery | Ended | Writing(pending: string, next: Server)

  /** `seen` are the queries the server has read, `keep` says that it serves more than one. */
  datatype State = State(client: Client, server: Server, c2s: string, s2c: string,
                         sent: nat, results: seq<seq<Row>>, seen: seq<string>, serverUrl: string, keep: bool)

  const INITIAL := State(Connect, ReadUrl, "", "", 0, [], [], "", false)

  const URL_LIMIT := 1024
  const QUERY_LIMIT := 4096

  /** The query before number `n` ends the session: it is the only one, or its code is -1. */
  predicate ServerDone(cfg: Config, n: nat)
    requires n <= |cfg.queries|
  {
    n > 0 && (!cfg.persistent || cfg.answer(cfg.queries[..n - 1], cfg.queries[n - 1]).code == -1)
  }

  function ServedFrom(cfg: Config, i: nat): (n: nat)
    requires i <= |cfg.queries|
    ensures i <= n <= |cfg.queries|
    decreases |cfg.queries| - i
  {
    if i == |cfg.queries| then i
    else if ServerDone(cfg, i + 1) then i + 1
    else ServedFrom(cfg, i + 1)
  }

  /** The number of queries that the server answers, the first one that ends the session included. */
  function Served(cfg: Config): (n: nat)
    ensures n <= |cfg.queries|
  {
    if cfg.persistent && !cfg.accepted then 0 else ServedFrom(cfg, 0)
  }

  lemma {:induction false} ServedFromStops(cfg: Config, i: nat)
    requires i <= |cfg.queries|
    ensures var n := ServedFrom(cfg, i);
      (n == |cfg.queries| || (n > i && ServerDone(cfg, n))) && forall k | i < k < n :: !ServerDone(cfg, k)
    decreases |cfg.queries| - i
  {
    hide ServerDone;
    if i < |cfg.queries| && !ServerDone(cfg, i + 1) { ServedFromStops(cfg, i + 1); }
  }

  /** On an accepted connection the answered queries are all, or end with the first that ends the session. */
  lemma ServedUntilDone(cfg: Config)
    requires !cfg.persistent || cfg.accepted
    ensures var n := Served(cfg);
      (n == |cfg.queries| || ServerDone(cfg, n)) && forall k | 0 < k < n :: !ServerDone(cfg, k)
  {
    hide ServerDone;
    ServedFromStops(cfg, 0);
  }

  /**
    The first `n` queries are those that get an answer: none when the server refuses to open,
    at most one on a short-lived connection, and otherwise all, or all up to and including the
    first whose code is -1.
   */
  predicate AnsweredOnes(cfg: Config, n: nat) {
    && n <= |cfg.queries|
    && if !cfg.persistent then n == if cfg.queries == [] then 0 else 1
       else if !cfg.accepted then n == 0
       else (n == |cfg.queries| || (n > 0 && cfg.answer(cfg.queries[..n - 1], cfg.queries[n - 1]).code == -1))
            && forall k | 0 <= k < n - 1 :: cfg.answer(cfg.queries[..k], cfg.queries[k]).code != -1
  }

  lemma ServedToFirstEnd(cfg: Config)
    ensures AnsweredOnes(cfg, Served(cfg))
  {
    if !cfg.persistent || cfg.accepted {
      ServedUntilDone(cfg);
      var n := Served(cfg);
      forall k: nat | k + 1 < n && cfg.persistent
        ensures cfg.answer(cfg.queries[..k], cfg.queries[k]).code != -1
      {
        assert !ServerDone(cfg, k + 1);
      }
      assert !cfg.persistent && cfg.queries != [] ==> ServerDone(cfg, 1);
      assert !ServerDone(cfg, 0);
    }
  }

  /**
    The messages that the fixed buffers and the single reads of the server can take, and
    answers to the queries it serves that fit the client's buffer.
   */
  ghost predicate Valid(cfg: Config) {
    && 0 < |cfg.url| < 1024 && NulFree(cfg.url) && '\r' !in cfg.url && '\n' !in cfg.url && cfg.url != "sdb_open"
    && (forall q | q in cfg.queries :: 0 < |q| < 4096 && NulFree(q))
    && (forall i | 0 <= i < Served(cfg) ::
          forall row | row in cfg.answer(cfg.queries[..i], cfg.queries[i]).rows :: Sendable(row))
  }

  function FirstMessage(cfg: Config): string {
    if cfg.persistent then "sdb_open" else cfg.url
  }

  function OpenReply(cfg: Config): string {
    if cfg.accepted then "+0" else END
  }

  datatype Move = ClientMove | ServerRead | ServerWrite(count: nat)

  predicate Enabled(cfg: Config, s: State, m: Move) {
    match m
    case ClientMove =>
      (match s.client
       case Connect => true
       case SendUrl => true
       case Ready => s.sent < |cfg.queries| && (s.keep || s.sent == 0)
       case Closed => false
       case _ => s.s2c != "")
    case ServerRead => !s.server.Writing? && s.server != Ended && s.c2s != ""
    case ServerWrite(n) => s.server.Writing? && 0 < n <= |s.server.pending|
  }

  function Next(cfg: Config, s: State, m: Move): State
    requires Enabled(cfg, s, m)
  {
    match m
    case ClientMove => ClientStep(cfg, s)
    case ServerRead => ReadStep(cfg, s)
    case ServerWrite(n) =>
      var rest := s.server.pending[n..];
      s.(s2c := s.s2c + s.server.pending[..n],
         server := if rest == "" then s.server.next else Writing(rest, s.server.next))
  }

  function ClientStep(cfg: Config, s: State): State
    requires Enabled(cfg, s, ClientMove)
  {
    match s.client
    case Connect => s.(c2s := s.c2s + FirstMessage(cfg), client := AwaitAck)
    case SendUrl => s.(c2s := s.c2s + cfg.url, client := AwaitPlus)
    case Ready => s.(c2s := s.c2s + cfg.queries[s.sent], sent := s.sent + 1, client := Reading(START))
    case AwaitAck => s.(s2c := s.s2c[1..], client := if cfg.persistent then SendUrl else Ready)
    case AwaitPlus => s.(s2c := s.s2c[1..], client := if s.s2c[0] == '+' then AwaitZero else Closed)
    case AwaitZero => s.(s2c := s.s2c[1..], client := Ready)
    case Reading(d) =>
      var d' := Step(d, s.s2c[0]);
      if d'.Done? then
        s.(s2c := s.s2c[1..], results := s.results + [d'.rows], client := if cfg.persistent then Ready else Closed)
      else s.(s2c := s.s2c[1..], client := Reading(d'))
  }

  /** A read takes what is there, as far as the buffer goes. */
  function Taken(s: string, limit: nat): string {
    if |s| <= limit then s else s[..limit]
  }

  function ReadStep(cfg: Config, s: State): State
    requires Enabled(cfg, s, ServerRead)
  {
    var msg := Taken(s.c2s, if s.server == ReadQuery then QUERY_LIMIT else URL_LIMIT);
    var s1 := s.(c2s := s.c2s[|msg|..]);
    match s.server
    case ReadUrl =>
      var u := ChompText(msg);
      s1.(server := Writing(" ", if u == "sdb_open" then ReadOpenUrl else ReadQuery),
          serverUrl := u, keep := u == "sdb_open")
    case ReadOpenUrl => s1.(server := Writing(OpenReply(cfg), ReadQuery), serverUrl := ChompText(msg))
    case ReadQuery =>
      var a := cfg.answer(s.seen, msg);
      s1.(server := Writing(Reply(a.rows), if s.keep && a.code != -1 then ReadQuery else Ended), seen := s.seen + [msg])
  }

  // ---- The invariant ----

  /** Bytes of the server under way to the client or still to be written. */
  function Incoming(s: State): string {
    if s.server.Writing? then s.s2c + s.server.pending else s.s2c
  }

  /** What the server does once its bytes are written. */
  function Then(s: State): Server {
    if s.server.Writing? then s.server.next else s.server
  }

  /** What the client gets for query number `i`. */
  function Expected(cfg: Config, i: nat): seq<Row>
    requires i < |cfg.queries|
  {
    Received(cfg.answer(cfg.queries[..i], cfg.queries[i]).rows)
  }

  predicate ResultsRight(cfg: Config, s: State) {
    |s.results| <= |cfg.queries| && forall i | 0 <= i < |s.results| :: s.results[i] == Expected(cfg, i)
  }

  predicate AfterUrl(cfg: Config, s: State) {
    s.serverUrl == cfg.url && s.keep == cfg.persistent
  }

  function Serving(cfg: Config, n: nat): Server
    requires n <= |cfg.queries|
  {
    if ServerDone(cfg, n) then Ended else ReadQuery
  }

  ghost predicate Inv(cfg: Config, s: State) {
    && |s.results| <= s.sent <= |cfg.queries| && |s.seen| <= s.sent && s.seen == cfg.queries[..|s.seen|]
    && ResultsRight(cfg, s) && (!cfg.persistent ==> s.sent <= if s.client.Ready? then 0 else 1)
    && |s.seen| <= Served(cfg)
    && (s.client.Ready? || s.client.Reading? ==> !cfg.persistent || cfg.accepted)
    && (s.server.Writing? ==> s.server.pending != "" && !s.server.next.Writing?)
    && match s.client
       case Connect => s.server == ReadUrl && s.c2s == "" && s.s2c == "" && s.sent == 0
       case AwaitAck =>
         s.sent == 0
         && ((s.server == ReadUrl && s.c2s == FirstMessage(cfg) && s.s2c == "")
             || (s.c2s == "" && Incoming(s) == " " && s.keep == cfg.persistent && s.serverUrl == FirstMessage(cfg)
                 && Then(s) == if cfg.persistent then ReadOpenUrl else ReadQuery))
       case SendUrl =>
         s.sent == 0 && cfg.persistent && s.keep && s.c2s == "" && s.s2c == "" && s.server == ReadOpenUrl
       case AwaitPlus =>
         s.sent == 0 && cfg.persistent && s.keep
         && ((s.server == ReadOpenUrl && s.c2s == cfg.url && s.s2c == "")
             || (s.c2s == "" && Incoming(s) == OpenReply(cfg) && Then(s) == ReadQuery && s.serverUrl == cfg.url))
       case AwaitZero =>
         s.sent == 0 && AfterUrl(cfg, s) && cfg.accepted && s.c2s == "" && Incoming(s) == "0" && Then(s) == ReadQuery
       case Ready =>
         AfterUrl(cfg, s) && |s.results| == |s.seen| == s.sent && s.c2s == "" && s.s2c == ""
         && s.server == Serving(cfg, s.sent)
       case Reading(d) =>
         s.sent > 0 && AfterUrl(cfg, s) && |s.results| == s.sent - 1
         && ((|s.seen| == s.sent - 1 && d == START && s.c2s == cfg.queries[s.sent - 1] && s.s2c == ""
              && s.server == Serving(cfg, s.sent - 1))
             || (|s.seen| == s.sent && s.c2s == "" && !d.Done? && !d.Overrun?
                 && Decode(d, Incoming(s)) == (Done(Expected(cfg, s.sent - 1)), "")
                 && Then(s) == Serving(cfg, s.sent)))
       case Closed =>
         s.c2s == "" && |s.results| == |s.seen| == s.sent
         && if s.sent == 0 then cfg.persistent && !cfg.accepted else
              !cfg.persistent && AfterUrl(cfg, s) && s.s2c == "" && s.server == Ended
  }

  // ---- Every step keeps it ----

  lemma InvInitial(cfg: Config)
    ensures Inv(cfg, INITIAL)
  {
  }

  lemma IncomingAfterWrite(cfg: Config, s: State, n: nat)
    requires Enabled(cfg, s, ServerWrite(n)) && !s.server.next.Writing?
    ensures var t := Next(cfg, s, ServerWrite(n)); Incoming(t) == Incoming(s) && Then(t) == Then(s)
  {
    var p := s.server.pending;
    assert p == p[..n] + p[n..];
    assert s.s2c + p == s.s2c + p[..n] + p[n..];
    if p[n..] == "" { assert s.s2c + p[..n] == s.s2c + p; }
  }

  lemma WriteKeepsInv(cfg: Config, s: State, n: nat)
    requires Valid(cfg) && Inv(cfg, s) && Enabled(cfg, s, ServerWrite(n))
    ensures Inv(cfg, Next(cfg, s, ServerWrite(n)))
  {
    hide Valid, Decode, Incoming, Then, Received, ServerDone;
    IncomingAfterWrite(cfg, s, n);
  }

  lemma IncomingAfterTake(s: State, t: State)
    requires s.s2c != "" && t.s2c == s.s2c[1..] && t.server == s.server
    ensures Incoming(s) != "" && Incoming(s)[0] == s.s2c[0] && Incoming(t) == Incoming(s)[1..] && Then(t) == Then(s)
    ensures |Incoming(s)| == 1 ==> t.s2c == "" && (s.server.Writing? ==> s.server.pending == "")
  {
    if s.server.Writing? {
      assert (s.s2c + s.server.pending)[1..] == s.s2c[1..] + s.server.pending;
    }
  }

  lemma ClientKeepsInv(cfg: Config, s: State)
    requires Valid(cfg) && Inv(cfg, s) && Enabled(cfg, s, ClientMove)
    ensures Inv(cfg, ClientStep(cfg, s))
  {
    hide Valid, Decode, Received, Step;
    var t := ClientStep(cfg, s);
    match s.client
    case Connect =>
    case SendUrl =>
    case Ready =>
    case AwaitAck => IncomingAfterTake(s, t);
    case AwaitPlus => IncomingAfterTake(s, t);
    case AwaitZero => IncomingAfterTake(s, t);
    case Reading(d) =>
      IncomingAfterTake(s, t);
      DecodeOne(d, Incoming(s));
  }

  lemma DecodeOne(d: Decoder, s: string)
    requires s != "" && !d.Done? && !d.Overrun?
    ensures Decode(d, s) == Decode(Step(d, s[0]), s[1..])
    ensures Step(d, s[0]).Done? || Step(d, s[0]).Overrun? ==> Decode(d, s) == (Step(d, s[0]), s[1..])
  {
  }

  lemma ReadUrlKeepsInv(cfg: Config, s: State)
    requires Valid(cfg) && Inv(cfg, s) && Enabled(cfg, s, ServerRead) && s.client.AwaitAck?
    ensures Inv(cfg, ReadStep(cfg, s))
  {
    hide ChompText;
    ChompTextIs(cfg.url, |cfg.url|);
    ChompTextIs("sdb_open", 8);
    var t := ReadStep(cfg, s);
    assert t.s2c + t.server.pending == t.server.pending;
  }

  lemma ReadOpenUrlKeepsInv(cfg: Config, s: State)
    requires Valid(cfg) && Inv(cfg, s) && Enabled(cfg, s, ServerRead) && s.client.AwaitPlus?
    ensures Inv(cfg, ReadStep(cfg, s))
  {
    hide ChompText;
    ChompTextIs(cfg.url, |cfg.url|);
    var t := ReadStep(cfg, s);
    assert t.s2c + t.server.pending == t.server.pending;
  }

  lemma ReadQueryKeepsInv(cfg: Config, s: State)
    requires Valid(cfg) && Inv(cfg, s) && Enabled(cfg, s, ServerRead) && s.client.Reading?
    ensures Inv(cfg, ReadStep(cfg, s))
  {
    hide Decode, Received, Reply, ChompText, Served, Valid;
    var t := ReadStep(cfg, s);
    assert t.s2c + t.server.pending == t.server.pending;
    var n := s.sent - 1;
    ServedUntilDone(cfg);
    ReplyArrives(cfg, n);
    assert cfg.queries[..n] + [cfg.queries[n]] == cfg.queries[..n + 1];
  }

  lemma ReplyArrives(cfg: Config, i: nat)
    requires Valid(cfg) && i < Served(cfg)
    ensures |cfg.queries[i]| < QUERY_LIMIT
    ensures var reply := Reply(cfg.answer(cfg.queries[..i], cfg.queries[i]).rows);
      reply != "" && Decode(START, reply) == (Done(Expected(cfg, i)), "")
  {
    hide Decode, Received, Reply, Served;
    assert cfg.queries[i] in cfg.queries;
    var rows := cfg.answer(cfg.queries[..i], cfg.queries[i]).rows;
    ReplyRoundTrip(rows, "");
    assert Reply(rows) + "" == Reply(rows);
    ReplyNotEmpty(rows);
  }

  lemma ReplyNotEmpty(rows: seq<DbRow>)
    ensures Reply(rows) != ""
  {
    assert |Reply(rows)| == |EncodeRows(rows)| + 2;
  }

  lemma ReadKeepsInv(cfg: Config, s: State)
    requires Valid(cfg) && Inv(cfg, s) && Enabled(cfg, s, ServerRead)
    ensures Inv(cfg, ReadStep(cfg, s))
  {
    hide Valid, ReadStep, ResultsRight, Decode;
    if s.client.AwaitAck? {
      ReadUrlKeepsInv(cfg, s);
    } else if s.client.AwaitPlus? {
      ReadOpenUrlKeepsInv(cfg, s);
    } else {
      ReadQueryKeepsInv(cfg, s);
    }
  }

  lemma StepKeepsInv(cfg: Config, s: State, m: Move)
    requires Valid(cfg) && Inv(cfg, s) && Enabled(cfg, s, m)
    ensures Inv(cfg, Next(cfg, s, m))
  {
    hide Valid, Inv;
    match m
    case ClientMove => ClientKeepsInv(cfg, s);
    case ServerRead => ReadKeepsInv(cfg, s);
    case ServerWrite(n) => WriteKeepsInv(cfg, s, n);
  }

  // ---- Whole runs ----

  predicate IsRun(cfg: Config, s: State, moves: seq<Move>)
    decreases |moves|
  {
    moves != [] ==> Enabled(cfg, s, moves[0]) && IsRun(cfg, Next(cfg, s, moves[0]), moves[1..])
  }

  function After(cfg: Config, s: State, moves: seq<Move>): State
    requires IsRun(cfg, s, moves)
    decreases |moves|
  {
    if moves == [] then s else After(cfg, Next(cfg, s, moves[0]), moves[1..])
  }

  lemma {:induction false} RunKeepsInv(cfg: Config, s: State, moves: seq<Move>)
    requires Valid(cfg) && Inv(cfg, s) && IsRun(cfg, s, moves)
    ensures Inv(cfg, After(cfg, s, moves))
    decreases |moves|
  {
    hide Valid, Inv;
    if moves != [] {
      StepKeepsInv(cfg, s, moves[0]);
      RunKeepsInv(cfg, Next(cfg, s, moves[0]), moves[1..]);
    }
  }

  /**
    Session safety, for every interleaving and every way the bytes are cut: the channel to the
    server never holds bytes of two messages; the server has read exactly the queries sent, in
    order, and works with the client's url; when the client may send, both channels are empty;
    and every answer so far shows what the database said to its own query.
   */
  lemma SessionSafety(cfg: Config, moves: seq<Move>)
    requires Valid(cfg) && IsRun(cfg, INITIAL, moves)
    ensures var s := After(cfg, INITIAL, moves);
      && s.sent <= |cfg.queries|
      && s.c2s in {"", FirstMessage(cfg), cfg.url} + (if s.sent > 0 then {cfg.queries[s.sent - 1]} else {})
      && s.seen <= cfg.queries && |s.seen| <= s.sent <= |s.results| + 1
      && (s.client.Ready? ==> s.c2s == "" && s.s2c == "" && !s.server.Writing? && |s.results| == s.sent)
      && (s.client.Reading? ==> !s.client.d.Overrun?)
      && (s.seen != [] ==> s.serverUrl == cfg.url && s.keep == cfg.persistent)
      && |s.results| <= |cfg.queries|
      && forall i | 0 <= i < |s.results| :: Shows(cfg.answer(cfg.queries[..i], cfg.queries[i]).rows, s.results[i])
  {
    hide Valid, Received, Shows;
    InvInitial(cfg);
    RunKeepsInv(cfg, INITIAL, moves);
    var s := After(cfg, INITIAL, moves);
    assert s.seen == cfg.queries[..|s.seen|];
    ResultsShow(cfg, s);
  }

  lemma ResultsShow(cfg: Config, s: State)
    requires ResultsRight(cfg, s)
    ensures forall i | 0 <= i < |s.results| :: Shows(cfg.answer(cfg.queries[..i], cfg.queries[i]).rows, s.results[i])
  {
    hide Received, Shows;
    forall i | 0 <= i < |s.results|
      ensures Shows(cfg.answer(cfg.queries[..i], cfg.queries[i]).rows, s.results[i])
    {
      ReceivedShows(cfg.answer(cfg.queries[..i], cfg.queries[i]).rows);
    }
  }

  // ---- Progress ----

  /** The session is over: the client has closed, or has every answer that the server gives. */
  predicate Finished(cfg: Config, s: State) {
    s.client.Closed? || ((s.client.Ready? || s.client.Reading?) && |s.results| == Served(cfg))
  }

  /** No deadlock: until the session is over, somebody can always take a step. */
  lemma NoDeadlock(cfg: Config, s: State)
    requires Valid(cfg) && Inv(cfg, s) && !Finished(cfg, s)
    ensures exists m :: Enabled(cfg, s, m)
  {
    hide Decode, Received, ResultsRight, Served, ServerDone;
    if s.server.Writing? {
      assert Enabled(cfg, s, ServerWrite(|s.server.pending|));
    } else if s.c2s != "" {
      if s.client.Reading? && ServerDone(cfg, s.sent - 1) { NotServedLess(cfg, s.sent - 1); }
      assert Enabled(cfg, s, ServerRead);
    } else {
      if s.client.Reading? { NothingLeftToDecode(s.client.d); }
      assert Enabled(cfg, s, ClientMove);
    }
  }

  /** Once a query has ended the session no more are served. */
  lemma NotServedLess(cfg: Config, n: nat)
    requires n <= |cfg.queries| && ServerDone(cfg, n) && (!cfg.persistent || cfg.accepted)
    ensures Served(cfg) <= n
  {
    hide Served, ServerDone;
    ServedUntilDone(cfg);
    NothingDoneFirst(cfg);
  }

  lemma NothingDoneFirst(cfg: Config)
    ensures !ServerDone(cfg, 0)
  {
  }

  /**
    A run that cannot go on has delivered the answers of all queries up to and including the
    first that ended the session, whatever the return codes (`AnsweredOnes`), and every answer
    shows what the database said to its own query.
   */
  lemma StuckMeansDone(cfg: Config, moves: seq<Move>)
    requires Valid(cfg) && IsRun(cfg, INITIAL, moves)
    requires forall m :: !Enabled(cfg, After(cfg, INITIAL, moves), m)
    ensures var s := After(cfg, INITIAL, moves);
      && |s.results| == Served(cfg) && AnsweredOnes(cfg, |s.results|)
      && (forall i | 0 <= i < |s.results| :: s.results[i] == Expected(cfg, i))
      && forall i | 0 <= i < |s.results| :: Shows(cfg.answer(cfg.queries[..i], cfg.queries[i]).rows, s.results[i])
  {
    hide Enabled, Received, Serving, Valid, Shows, AnsweredOnes;
    InvInitial(cfg);
    RunKeepsInv(cfg, INITIAL, moves);
    var s := After(cfg, INITIAL, moves);
    if !Finished(cfg, s) { NoDeadlock(cfg, s); }
    ResultsShow(cfg, s);
    ServedToFirstEnd(cfg);
  }

  lemma NothingLeftToDecode(d: Decoder)
    ensures Decode(d, "") == (d, "")
  {
  }

  function Phase(c: Client): nat {
    match c
    case Connect => 6
    case AwaitAck => 5
    case SendUrl => 4
    case AwaitPlus => 3
    case AwaitZero => 2
    case Reading(_) => 2
    case Ready => 1
    case Closed => 0
  }

  function Pending(s: State): nat {
    if s.server.Writing? then |s.server.pending| else 0
  }

  /** The measure: queries to send, client phase, message to read, bytes to write, bytes to take. */
  predicate Smaller(cfg: Config, t: State, s: State) {
    var a, b := |cfg.queries| - t.sent, |cfg.queries| - s.sent;
    a < b || (a == b && (Phase(t.client) < Phase(s.client) || (Phase(t.client) == Phase(s.client)
    && (|t.c2s| < |s.c2s| || (|t.c2s| == |s.c2s|
    && (Pending(t) < Pending(s) || (Pending(t) == Pending(s) && |t.s2c| < |s.s2c|)))))))
  }

  /** Every step makes the measure smaller. */
  lemma StepsGetSmaller(cfg: Config, s: State, m: Move)
    requires Valid(cfg) && Inv(cfg, s) && Enabled(cfg, s, m)
    ensures Smaller(cfg, Next(cfg, s, m), s) && |cfg.queries| - Next(cfg, s, m).sent >= 0
  {
    hide Valid, Decode, Received, ResultsRight, Serving, Step;
  }

  /** No run goes on for ever: any sequence of states and moves comes to a move that is not possible. */
  lemma EveryRunEnds(cfg: Config, state: nat -> State, move: nat -> Move)
    requires Valid(cfg) && state(0) == INITIAL
    requires forall n: nat :: Enabled(cfg, state(n), move(n)) ==> state(n + 1) == Next(cfg, state(n), move(n))
    ensures exists n: nat :: !Enabled(cfg, state(n), move(n))
  {
    InvInitial(cfg);
    RunEndsFrom(cfg, state, move, 0);
  }

  lemma RunEndsFrom(cfg: Config, state: nat -> State, move: nat -> Move, k: nat)
    requires Valid(cfg) && Inv(cfg, state(k)) && |cfg.queries| >= state(k).sent
    requires forall n: nat :: Enabled(cfg, state(n), move(n)) ==> state(n + 1) == Next(cfg, state(n), move(n))
    ensures exists n: nat :: !Enabled(cfg, state(n), move(n))
    decreases |cfg.queries| - state(k).sent, Phase(state(k).client), |state(k).c2s|, Pending(state(k)), |state(k).s2c|
  {
    hide Valid, Inv, Enabled, Next;
    if Enabled(cfg, state(k), move(k)) {
      StepKeepsInv(cfg, state(k), move(k));
      StepsGetSmaller(cfg, state(k), move(k));
      RunEndsFrom(cfg, state, move, k + 1);
    }
  }
}
