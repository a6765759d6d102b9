/**
  Chains of sdbd proxies: sdb_query on a url of the sdbd driver sends the text behind the first
  ":url=" to the server at the given address, which queries it in turn (sdbd_driver.c, sdbd.c).
 */
module Proxy {
  import opened CStrings
  import opened Common
  import opened Wire
  import Channels
  import Connections
  import Session

  /** A call of a driver other than the outermost caller sees: where, which driver, with what parameters. */
  datatype Call = Call(at: string, driver: nat, params: string)

  /** OutsideProtocol: a message that the single reads or fixed buffers cannot take, or no message at all. */
  datatype Result = Answered(rows: seq<DbRow>, code: int, calls: seq<Call>) | OutsideProtocol

  /**
    The library of each address ("" is the caller's own), the databases behind the native
    drivers, and the addresses that accept connections.
   */
  datatype Net = Net(lib: string -> seq<Connections.Driver>,
                     native: (string, nat, string, string) -> (seq<DbRow>, int),
                     reachable: string -> bool)

  const URL_KEY := ":url="

  lemma ChompShorter(s: string)
    ensures |Channels.ChompText(s)| <= |s|
  {
  }

  /** What the two single reads of the server can take as a url and a query. */
  predicate MessagesFit(inner: string, q: string) {
    0 < |inner| < Session.URL_LIMIT && Channels.ChompText(inner) != "sdb_open" && 0 < |q| < Session.QUERY_LIMIT
  }

  /** sdb_query on a url with a colon. */
  function Query(net: Net, at: string, url: string, q: string): Result
    decreases |url|
  {
    if ':' !in url then Answered([], -1, []) else
    match Connections.DriverNamed(net.lib(at), Connections.SchemeOf(url))
    case None => Answered([], -1, [])
    case Some(i) =>
      var params := Connections.ParamsOf(url);
      var call := Call(at, i, params);
      if !SameIgnoringCase(net.lib(at)[i].name, "sdbd") then
        var (rows, code) := net.native(at, i, params, q);
        Answered(rows, code, [call])
      else
        match SplitParams(params)
        case None => Answered([], -1, [call])
        case Some((address, inner)) =>
          if !net.reachable(address) then Answered([], -1, [call])
          else if !MessagesFit(inner, q) then OutsideProtocol
          else
            ChompShorter(inner);
            SplitShorter(params);
            FromServer(Query(net, address, Channels.ChompText(inner), q), call)
  }

  /** sdbd_connect and sdbd_try: host and port before the first ":url=", the url to send behind it. */
  function SplitParams(params: string): Option<(string, string)> {
    match Find(params, URL_KEY)
    case None => None
    case Some(k) => if ':' in params[..k] then Some((params[..k], params[k + 5..])) else None
  }

  lemma SplitShorter(params: string)
    requires SplitParams(params).Some?
    ensures |SplitParams(params).value.1| < |params|
  {
  }

  /** The client decodes what the server encoded; the return code is the number of rows decoded. */
  function FromServer(r: Result, call: Call): Result {
    match r
    case OutsideProtocol => OutsideProtocol
    case Answered(rows, _, calls) =>
      var (d, _) := Decode(START, Reply(rows));
      if d.Done? then Answered(AsGiven(d.rows), |d.rows|, [call] + calls) else OutsideProtocol
  }

  /** Rows as the callback sees them, handed on as database rows. */
  function AsGiven(rows: seq<Row>): (r: seq<DbRow>)
    ensures |r| == |rows|
    ensures forall i | 0 <= i < |r| :: |r[i]| == |rows[i]| && forall k | 0 <= k < |r[i]| :: r[i][k] == Some(rows[i][k])
  {
    seq(|rows|, i requires 0 <= i < |rows| => seq(|rows[i]|, k requires 0 <= k < |rows[i]| => Some(rows[i][k])))
  }

  // ---- Chains ----

  datatype Hop = Hop(host: string, port: string)

  function Address(h: Hop): string {
    h.host + ":" + h.port
  }

  function Wrap(hops: seq<Hop>, inner: string): string {
    if hops == [] then inner else "sdbd:" + (Address(hops[0]) + URL_KEY + Wrap(hops[1..], inner))
  }

  predicate OneLine(s: string) {
    '\r' !in s && '\n' !in s
  }

  predicate HopOk(net: Net, h: Hop) {
    ':' !in h.host && ':' !in h.port && !("url=" <= h.port) && OneLine(Address(h)) && net.reachable(Address(h))
  }

  /** The library at the address answers to the name sdbd. */
  predicate HasProxy(net: Net, at: string) {
    Connections.DriverNamed(net.lib(at), "sdbd").Some?
  }

  /** No url key starts inside the address. */
  lemma AddressHasNoKey(h: Hop, inner: string)
    requires ':' !in h.host && ':' !in h.port && !("url=" <= h.port)
    ensures SplitParams(Address(h) + URL_KEY + inner) == Some((Address(h), inner))
  {
    hide Find;
    var a := Address(h);
    var s := a + URL_KEY + inner;
    assert OccursAt(s, URL_KEY, |a|);
    forall k | 0 <= k < |a| ensures !OccursAt(s, URL_KEY, k) {
      NoKeyAt(h, inner, k);
    }
    assert s[..|a|] == a && s[|a| + 5..] == inner;
    assert a[|h.host|] == ':';
  }

  lemma NoKeyAt(h: Hop, inner: string, k: nat)
    requires ':' !in h.host && ':' !in h.port && !("url=" <= h.port) && k < |Address(h)|
    ensures !OccursAt(Address(h) + URL_KEY + inner, URL_KEY, k)
  {
    var s := Address(h) + URL_KEY + inner;
    var t, m := s[k..k + 5], |h.port|;
    assert forall i | 0 <= i < 5 :: t[i] == s[k + i];
    if k != |h.host| {
      assert s[k] == if k < |h.host| then h.host[k] else h.port[k - |h.host| - 1];
      assert t[0] != ':';
    } else if m < 4 {
      assert t[1 + m] == s[k + 1 + m] == ':' && URL_KEY[1 + m] != ':';
    } else {
      assert forall i | 0 <= i < 4 :: t[1 + i] == s[k + 1 + i] == h.port[i];
      assert t[1..] == h.port[..4] && URL_KEY[1..] == "url=";
    }
  }

  lemma WrapParts(hops: seq<Hop>, inner: string)
    requires hops != []
    ensures var url := Wrap(hops, inner);
      ':' in url && Connections.SchemeOf(url) == "sdbd"
      && Connections.ParamsOf(url) == Address(hops[0]) + URL_KEY + Wrap(hops[1..], inner)
  {
    hide Wrap;
    var rest := Address(hops[0]) + URL_KEY + Wrap(hops[1..], inner);
    WrapUnfold(hops, inner);
    var url := Wrap(hops, inner);
    assert url == "sdbd" + [':'] + rest;
    IndexOfSplit("sdbd", ':', rest);
    assert url[4] == ':';
    assert url[..4] == "sdbd" && url[5..] == rest;
  }

  lemma WrapUnfold(hops: seq<Hop>, inner: string)
    requires hops != []
    ensures Wrap(hops, inner) == "sdbd:" + (Address(hops[0]) + URL_KEY + Wrap(hops[1..], inner))
  {
  }

  lemma {:induction false} WrapOneLine(net: Net, hops: seq<Hop>, inner: string)
    requires OneLine(inner) && forall h | h in hops :: HopOk(net, h)
    ensures OneLine(Wrap(hops, inner)) && Channels.ChompText(Wrap(hops, inner)) == Wrap(hops, inner)
    ensures hops != [] ==> Wrap(hops, inner) != "" && Wrap(hops, inner) != "sdb_open"
  {
    hide Address;
    if hops != [] {
      assert HopOk(net, hops[0]);
      WrapOneLine(net, hops[1..], inner);
      assert Wrap(hops, inner)[4] == ':';
    }
    var w := Wrap(hops, inner);
    Channels.ChompTextIs(w, |w|);
  }

  lemma AsGivenSendable(rows: seq<DbRow>)
    requires forall row | row in rows :: Sendable(row)
    ensures forall row | row in AsGiven(Received(rows)) :: Sendable(row) && row != []
  {
    var got := Received(rows);
    ReceivedSendable(rows);
    var given := AsGiven(got);
    forall row | row in given ensures Sendable(row) && row != [] {
      var i :| 0 <= i < |given| && given[i] == row;
      assert got[i] in got;
      forall v | v in row ensures |Shown(v)| <= MAX_COLUMN && NulFree(Shown(v)) {
        var k :| 0 <= k < |row| && row[k] == v;
        assert got[i][k] in got[i];
      }
    }
  }

  lemma {:induction false} ReceivedSendable(rows: seq<DbRow>)
    requires forall row | row in rows :: Sendable(row)
    ensures forall r | r in Received(rows) :: r != [] && forall v | v in r :: |v| <= MAX_COLUMN && NulFree(v)
  {
    if rows != [] {
      ReceivedSendable(rows[1..]);
      var first := ShownRow(rows[0]);
      assert Sendable(rows[0]);
      forall v | v in first ensures |v| <= MAX_COLUMN && NulFree(v) {
        var k :| 0 <= k < |first| && first[k] == v;
        assert rows[0][k] in rows[0] && v == Shown(rows[0][k]);
      }
    }
  }

  /** Rows that have been through one hop come through the next unchanged. */
  lemma {:induction false} ReceivedAgain(rows: seq<Row>)
    requires forall r | r in rows :: r != []
    ensures Received(AsGiven(rows)) == rows
  {
    hide ShownRow;
    var given := AsGiven(rows);
    if rows != [] {
      assert rows[0] in rows && forall r | r in rows[1..] :: r in rows;
      ReceivedAgain(rows[1..]);
      assert given[1..] == AsGiven(rows[1..]);
      assert ShownRow(given[0]) == rows[0];
      assert rows == [rows[0]] + rows[1..];
    }
  }

  /** One hop: one layer is stripped, the inner url is queried at the address, the rows are re-encoded. */
  lemma OneHop(net: Net, at: string, hops: seq<Hop>, inner: string, q: string)
    requires hops != [] && HopOk(net, hops[0]) && HasProxy(net, at)
    requires var url := Wrap(hops[1..], inner); MessagesFit(url, q) && Channels.ChompText(url) == url
    ensures var i := Connections.DriverNamed(net.lib(at), "sdbd").value;
      Query(net, at, Wrap(hops, inner), q)
        == FromServer(Query(net, Address(hops[0]), Wrap(hops[1..], inner), q),
                      Call(at, i, Address(hops[0]) + URL_KEY + Wrap(hops[1..], inner)))
  {
    hide Wrap, FromServer, Address, Channels.ChompText, Connections.SchemeOf, Connections.ParamsOf, SplitParams;
    WrapParts(hops, inner);
    AddressHasNoKey(hops[0], Wrap(hops[1..], inner));
  }

  lemma FromServerRows(rows: seq<DbRow>, code: int, calls: seq<Call>, call: Call)
    requires forall row | row in rows :: Sendable(row)
    ensures FromServer(Answered(rows, code, calls), call)
      == Answered(AsGiven(Received(rows)), |Received(rows)|, [call] + calls)
  {
    hide Decode, Reply, Sendable;
    ReplyRoundTrip(rows, "");
    assert Reply(rows) + "" == Reply(rows);
  }

  /** The driver calls along the chain, outermost first: each hop gets one layer less. */
  function HopCalls(net: Net, at: string, hops: seq<Hop>, inner: string): (r: seq<Call>)
    requires hops != [] && Linked(net, at, hops)
    decreases |hops|
  {
    var params := Address(hops[0]) + URL_KEY + Wrap(hops[1..], inner);
    [Call(at, Connections.DriverNamed(net.lib(at), "sdbd").value, params)]
    + if |hops| == 1 then [] else HopCalls(net, Address(hops[0]), hops[1..], inner)
  }

  /** Every address that passes the query on has the proxy driver; the last one need not. */
  predicate Linked(net: Net, at: string, hops: seq<Hop>)
    decreases |hops|
  {
    hops != [] ==> HasProxy(net, at) && Linked(net, Address(hops[0]), hops[1..])
  }

  function WithColumns(rows: seq<DbRow>): nat {
    if rows == [] then 0 else (if rows[0] == [] then 0 else 1) + WithColumns(rows[1..])
  }

  lemma {:induction false} ReceivedCount(rows: seq<DbRow>)
    ensures |Received(rows)| == WithColumns(rows)
  {
    if rows != [] { ReceivedCount(rows[1..]); }
  }

  /** A chain of any depth is the query at its last address, with the rows and codes that hops pass on. */
  lemma {:induction false} ChainIsOneQuery(net: Net, at: string, hops: seq<Hop>, inner: string, q: string)
    requires hops != [] && Linked(net, at, hops) && inner != "" && inner != "sdb_open" && OneLine(inner)
    requires |Wrap(hops[1..], inner)| < Session.URL_LIMIT && 0 < |q| < Session.QUERY_LIMIT
    requires forall h | h in hops :: HopOk(net, h)
    requires var r := Query(net, Address(hops[|hops| - 1]), inner, q);
      r.Answered? && forall row | row in r.rows :: Sendable(row)
    ensures var r := Query(net, Address(hops[|hops| - 1]), inner, q);
      var chained := Query(net, at, Wrap(hops, inner), q);
      && chained
         == Answered(AsGiven(Received(r.rows)), |Received(r.rows)|, HopCalls(net, at, hops, inner) + r.calls)
      && (chained.code == r.code <==> r.code == WithColumns(r.rows))
    decreases |hops|
  {
    hide Query, FromServer, Wrap, Address, AsGiven, Sendable, OneLine, Received, Connections.DriverNamed, URL_KEY,
         WithColumns;
    var r := Query(net, Address(hops[|hops| - 1]), inner, q);
    var rest := hops[1..];
    ReceivedCount(r.rows);
    WrapOneLine(net, rest, inner);
    WrapNothing(inner);
    OneHop(net, at, hops, inner, q);
    var params := Address(hops[0]) + URL_KEY + Wrap(rest, inner);
    var call := Call(at, Connections.DriverNamed(net.lib(at), "sdbd").value, params);
    if |hops| == 1 {
      assert rest == [];
      FromServerRows(r.rows, r.code, r.calls, call);
      assert HopCalls(net, at, hops, inner) == [call];
    } else {
      WrapUnfold(rest, inner);
      ChainIsOneQuery(net, Address(hops[0]), rest, inner, q);
      var given := AsGiven(Received(r.rows));
      AsGivenSendable(r.rows);
      var innerCalls := HopCalls(net, Address(hops[0]), rest, inner) + r.calls;
      FromServerRows(given, |Received(r.rows)|, innerCalls, call);
      ReceivedNotEmpty(r.rows);
      ReceivedAgain(Received(r.rows));
      assert [call] + innerCalls == HopCalls(net, at, hops, inner) + r.calls;
    }
  }

  /**
    Proxy chains of any depth are transparent: the innermost url is queried at the last address
    by the first driver with the name of its scheme, with what follows the scheme and the colon,
    and every hop before strips exactly one layer.  The caller sees the rows that have columns,
    NULL turned into "", and their number.  The return code of the innermost driver is not
    passed on: it comes through exactly when it is that number.
   */
  lemma ChainIsTransparent(net: Net, at: string, hops: seq<Hop>, i: nat, scheme: string, params: string, q: string)
    requires hops != [] && Linked(net, at, hops) && forall h | h in hops :: HopOk(net, h)
    requires var last := net.lib(Address(hops[|hops| - 1]));
      Connections.NamedFirst(last, i, scheme) && !SameIgnoringCase(last[i].name, "sdbd")
    requires ':' !in scheme && |scheme| <= 1000 && OneLine(scheme + ":" + params)
    requires |Wrap(hops[1..], scheme + ":" + params)| < 1024 && 0 < |q| < 4096
    requires forall row | row in net.native(Address(hops[|hops| - 1]), i, params, q).0 :: Sendable(row)
    ensures var last := Address(hops[|hops| - 1]); var inner := scheme + ":" + params;
      var (rows, code) := net.native(last, i, params, q);
      var got, chained := Received(rows), Query(net, at, Wrap(hops, inner), q);
      && chained == Answered(AsGiven(got), |got|, HopCalls(net, at, hops, inner) + [Call(last, i, params)])
      && Shows(rows, got) && (chained.code == code <==> code == WithColumns(rows))
  {
    hide Query, Wrap, Address, Received, AsGiven, Shows, HopCalls, Connections.NamedFirst,
         WithColumns, SameIgnoringCase;
    var last, inner := Address(hops[|hops| - 1]), scheme + ":" + params;
    NativeQuery(net, last, i, scheme, params, q);
    assert inner[|scheme|] == ':';
    ChainIsOneQuery(net, at, hops, inner, q);
    ReceivedShows(net.native(last, i, params, q).0);
  }

  /** At its own address a url calls the first driver with the name of its scheme, with what follows the colon. */
  lemma NativeQuery(net: Net, at: string, i: nat, scheme: string, params: string, q: string)
    requires Connections.NamedFirst(net.lib(at), i, scheme) && !SameIgnoringCase(net.lib(at)[i].name, "sdbd")
    requires ':' !in scheme && |scheme| <= 1000
    ensures Query(net, at, scheme + ":" + params, q)
      == Answered(net.native(at, i, params, q).0, net.native(at, i, params, q).1, [Call(at, i, params)])
  {
    hide SameIgnoringCase, Connections.DriverNamed, SplitParams, FromServer;
    var url := scheme + ":" + params;
    Connections.DriverNamedIs(net.lib(at), scheme, i);
    SchemeAndParams(scheme, params);
    assert url[|scheme|] == ':';
  }

  lemma SchemeAndParams(scheme: string, params: string)
    requires ':' !in scheme && |scheme| <= 1000
    ensures var url := scheme + ":" + params;
      ':' in url && Connections.SchemeOf(url) == scheme && Connections.ParamsOf(url) == params
  {
    hide IndexOf;
    var url := scheme + ":" + params;
    IndexOfSplit(scheme, ':', params);
    assert url[|scheme|] == ':' && url[..|scheme|] == scheme && url[|scheme| + 1..] == params;
  }

  /**
    Where a query fails at once with -1: no driver has the name of the scheme, the url of the
    proxy driver names no address and inner url, or nothing answers at the address.
   */
  lemma FailsAtOnce(net: Net, at: string, scheme: string, params: string, q: string)
    requires ':' !in scheme && |scheme| <= 1000
    requires var i := Connections.DriverNamed(net.lib(at), scheme);
      || i.None?
      || (SameIgnoringCase(net.lib(at)[i.value].name, "sdbd")
          && (|| (forall k: nat :: !OccursAt(params, ":url=", k))
              || exists h: Hop, inner :: params == Address(h) + ":url=" + inner && !net.reachable(Address(h))
                                         && ':' !in h.host && ':' !in h.port && !("url=" <= h.port)))
    ensures var r := Query(net, at, scheme + ":" + params, q); r.Answered? && r.rows == [] && r.code == -1
  {
    hide SameIgnoringCase, Connections.DriverNamed, FromServer, Address, Find;
    SchemeAndParams(scheme, params);
    var i := Connections.DriverNamed(net.lib(at), scheme);
    if i.Some? && exists k: nat :: OccursAt(params, ":url=", k) {
      var h: Hop, inner :| params == Address(h) + ":url=" + inner && !net.reachable(Address(h))
                           && ':' !in h.host && ':' !in h.port && !("url=" <= h.port);
      AddressHasNoKey(h, inner);
    }
  }

  /** A failure behind a proxy looks like an empty answer: the caller gets 0 instead of -1. */
  lemma FailureIsHidden(net: Net, at: string, hops: seq<Hop>, inner: string, q: string)
    requires hops != [] && Linked(net, at, hops) && inner != "" && inner != "sdb_open" && OneLine(inner)
    requires |Wrap(hops[1..], inner)| < Session.URL_LIMIT && 0 < |q| < Session.QUERY_LIMIT
    requires forall h | h in hops :: HopOk(net, h)
    requires var r := Query(net, Address(hops[|hops| - 1]), inner, q); r.Answered? && r.rows == [] && r.code == -1
    ensures var r := Query(net, at, Wrap(hops, inner), q); r.Answered? && r.rows == [] && r.code == 0
  {
    hide Query, Wrap, Address, HopCalls, Linked, HopOk;
    ChainIsOneQuery(net, at, hops, inner, q);
  }

  /** The url of one hop as it is written. */
  lemma WrapLooks(h: Hop, inner: string)
    ensures Wrap([h], inner) == "sdbd:" + h.host + ":" + h.port + ":url=" + inner
  {
    assert [h][1..] == [];
    assert Wrap([h], inner) == "sdbd:" + (h.host + ":" + h.port + ":url=" + inner);
  }

  lemma WrapNothing(inner: string)
    ensures Wrap([], inner) == inner
  {
  }

  lemma {:induction false} ReceivedNotEmpty(rows: seq<DbRow>)
    ensures forall r | r in Received(rows) :: r != []
  {
    if rows != [] { ReceivedNotEmpty(rows[1..]); }
  }

  /**
    One hop is one session: whatever the interleaving and whatever the return code, a session
    with the inner server that has come to its end has handed the client exactly the rows that
    the hop passes on.
   */
  lemma HopIsOneSession(inner: string, q: string, rows: seq<DbRow>, code: int, calls: seq<Call>, call: Call,
                        cfg: Session.Config, moves: seq<Session.Move>)
    requires cfg == Session.Config(inner, [q], false, true, cfg.answer)
    requires cfg.answer([], q) == Session.Answer(rows, code)
    requires MessagesFit(inner, q) && NulFree(inner) && NulFree(q) && OneLine(inner) && inner != "sdb_open"
    requires forall row | row in rows :: Sendable(row)
    requires Session.IsRun(cfg, Session.INITIAL, moves)
    requires forall m :: !Session.Enabled(cfg, Session.After(cfg, Session.INITIAL, moves), m)
    ensures var results := Session.After(cfg, Session.INITIAL, moves).results;
      |results| == 1
      && FromServer(Answered(rows, code, calls), call) == Answered(AsGiven(results[0]), |results[0]|, [call] + calls)
  {
    hide Decode, Received, FromServer, AsGiven, Session.After, Session.IsRun;
    assert cfg.queries[..0] == [] && Session.ServerDone(cfg, 1);
    Session.StuckMeansDone(cfg, moves);
    FromServerRows(rows, code, calls, call);
  }
}
