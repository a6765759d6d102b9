/** The driver table and the connection table of sdb.c. */
module Connections {
  import opened CStrings
  import opened Common
  import opened Decimal

  const CONN_MAX := 100
  const NAME_MAX := 1000

  datatype Driver = Driver(name: string, hasOpen: bool, hasClose: bool)

  /**
    A slot of the connection table; closing a slot leaves its driver and db as they were.
    `serial` tells which call of sdb_open filled the slot; the program does not keep it.
   */
  datatype Conn = Conn(url: Option<string>, index: Option<string>, driver: nat, db: Option<nat>, serial: nat)

  /**
    A connection that a driver's open function returned.  The pointer `db` may come back from a
    later call once the connection is ended, so the number of the call is what identifies it.
   */
  datatype Handle = Handle(driver: nat, db: nat, serial: nat)

  /**
    The library's state.  `acquired` and `released` log the connections made by the drivers' open
    functions and given to their close functions, for drivers that have a close function; `made`
    numbers the calls of sdb_open that find a driver.
   */
  datatype Lib = Lib(
    drivers: seq<Driver>,
    conn: seq<Conn>,
    made: nat,
    acquired: multiset<Handle>,
    released: multiset<Handle>
  )

  const NoConn := Conn(None, None, 0, None, 0)

  // ---- Driver lookup ----

  function SchemeOf(url: string): string {
    var n := IndexOf(url, ':');
    if n > NAME_MAX then url[..NAME_MAX] else url[..n]
  }

  /** What follows the first colon. */
  function ParamsOf(url: string): string
    requires ':' in url
  {
    IndexOfFirst(url, ':');
    url[IndexOf(url, ':') + 1..]
  }

  /** The first driver whose name is the given one, letter case ignored. */
  function DriverNamed(drivers: seq<Driver>, name: string): (i: Option<nat>)
    ensures i.Some? ==> i.value < |drivers| && SameIgnoringCase(drivers[i.value].name, name)
    ensures i.Some? ==> forall k | 0 <= k < i.value :: !SameIgnoringCase(drivers[k].name, name)
    ensures i.None? ==> forall k | 0 <= k < |drivers| :: !SameIgnoringCase(drivers[k].name, name)
  {
    if drivers == [] then None
    else if SameIgnoringCase(drivers[0].name, name) then Some(0)
    else match DriverNamed(drivers[1..], name)
         case None => None
         case Some(i) => Some(i + 1)
  }

  /** The name is that of driver `i`, and of none before it, letter case ignored. */
  predicate NamedFirst(drivers: seq<Driver>, i: nat, name: string) {
    && i < |drivers| && SameIgnoringCase(drivers[i].name, name)
    && forall k | 0 <= k < i :: !SameIgnoringCase(drivers[k].name, name)
  }

  function LookupDriver(drivers: seq<Driver>, url: Option<string>): Option<nat> {
    match url case None => None case Some(u) => DriverNamed(drivers, SchemeOf(u))
  }

  // ---- The operations on the state ----

  /** The least slot without a url, or CONN_MAX. */
  function FirstFree(conn: seq<Conn>): (j: nat)
    ensures j <= |conn| && (j < |conn| ==> conn[j].url.None?)
    ensures forall k | 0 <= k < j :: conn[k].url.Some?
  {
    if conn == [] || conn[0].url.None? then 0 else 1 + FirstFree(conn[1..])
  }

  predicate Closable(drivers: seq<Driver>, c: Conn) {
    c.db.Some? && c.driver < |drivers| && drivers[c.driver].hasClose
  }

  function HandleOf(drivers: seq<Driver>, c: Conn): multiset<Handle> {
    if Closable(drivers, c) then multiset{Handle(c.driver, c.db.value, c.serial)} else multiset{}
  }

  /** A colon-free url of a known driver makes sdb_open follow a null pointer. */
  predicate OpenDefined(l: Lib, url: Option<string>) {
    LookupDriver(l.drivers, url).Some? ==> ':' in url.value
  }

  /** sdb_open; `db` is what the driver's open function returns if it has one. */
  function OpenStep(l: Lib, url: Option<string>, db: Option<nat>): (Lib, Option<string>)
    requires OpenDefined(l, url)
  {
    match LookupDriver(l.drivers, url)
    case None => (l, None)
    case Some(i) =>
      var j := FirstFree(l.conn);
      var dbOpened := if l.drivers[i].hasOpen then db else None;
      var slot := Conn(Some(ParamsOf(url.value)), Some(Dec(j)), i, dbOpened, l.made);
      var l1 := l.(made := l.made + 1, acquired := l.acquired + HandleOf(l.drivers, slot));
      if j == |l.conn| then (l1, None) else (l1.(conn := l.conn[j := slot]), slot.index)
  }

  /** The slot that sdb_close acts on, if the text is accepted. */
  function CloseSlot(size: nat, url: string): (j: Option<nat>)
    ensures j.Some? ==> j.value < size
  {
    if ':' in url || url == "" || !IsDigit(url[0]) then None
    else if 0 <= Atoi(url) < size then Some(Atoi(url)) else None
  }

  /** sdb_close; `n` is what the driver's close function returns if it is called. */
  function CloseStep(l: Lib, url: string, n: int): (Lib, int) {
    match CloseSlot(|l.conn|, url)
    case None => (l, -1)
    case Some(j) =>
      var c := l.conn[j];
      (l.(released := l.released + HandleOf(l.drivers, c), conn := l.conn[j := c.(url := None, index := None)]),
       if Closable(l.drivers, c) then n else 0)
  }

  /** The driver call that sdb_query makes: driver, connection and parameter string. */
  datatype Target = NoTarget | Target(driver: nat, db: Option<nat>, params: string)

  function QueryTarget(l: Lib, url: Option<string>): Target {
    match url
    case None => NoTarget
    case Some(u) =>
      if ':' in u then
        match DriverNamed(l.drivers, SchemeOf(u))
        case None => NoTarget
        case Some(i) => Target(i, None, ParamsOf(u))
      else
        var j := Atoi(u);
        if 0 <= j < |l.conn| && l.conn[j].url.Some? && l.conn[j].index == Some(u) then
          Target(l.conn[j].driver, l.conn[j].db, l.conn[j].url.value)
        else NoTarget
  }

  // ---- The library as the program keeps it ----

  class Library {
    var drivers: seq<Driver>
    var conn: seq<Conn>
    var made: nat
    var acquired: multiset<Handle>
    var released: multiset<Handle>

    ghost function State(): Lib
      reads this
    {
      Lib(drivers, conn, made, acquired, released)
    }

    constructor ()
      ensures State() == Initial([])
    {
      drivers := [];
      conn := seq(CONN_MAX, _ => NoConn);
      made := 0;
      acquired := multiset{};
      released := multiset{};
    }

    method RegisterDriver(name: string, hasOpen: bool, hasClose: bool)
      modifies this
      ensures State() == old(State()).(drivers := old(drivers) + [Driver(name, hasOpen, hasClose)])
    {
      drivers := drivers + [Driver(name, hasOpen, hasClose)];
    }

    /** lookup_driver. */
    method Lookup(url: Option<string>) returns (r: Option<nat>)
      requires (url.Some? ==> NulFree(url.value)) && forall d | d in drivers :: NulFree(d.name)
      ensures r == LookupDriver(drivers, url)
    {
      if url.None? { return None; }
      var u := url.value;
      var n := IndexOf(u, ':');
      if n > NAME_MAX { n := NAME_MAX; }
      var driver := u[..n];
      var i := 0;
      while i < |drivers|
        invariant i <= |drivers|
        invariant forall k | 0 <= k < i :: !SameIgnoringCase(drivers[k].name, driver)
      {
        assert drivers[i] in drivers;
        var c := StrCaseCmp(drivers[i].name, driver);
        if c == 0 {
          DriverNamedIs(drivers, driver, i);
          return Some(i);
        }
        i := i + 1;
      }
      return None;
    }

    method Open(url: Option<string>, db: Option<nat>) returns (r: Option<string>)
      requires OpenDefined(State(), url)
      requires (url.Some? ==> NulFree(url.value)) && forall d | d in drivers :: NulFree(d.name)
      modifies this
      ensures (State(), r) == OpenStep(old(State()), url, db)
    {
      hide DriverNamed, FirstFree, IndexOf, Dec;
      var d := Lookup(url);
      if d.None? { return None; }
      var i, u := d.value, url.value;
      var dbOpened := if drivers[i].hasOpen then db else None;
      if dbOpened.Some? && drivers[i].hasClose {
        acquired := acquired + multiset{Handle(i, dbOpened.value, made)};
      }
      var j := 0;
      while j < |conn| && conn[j].url.Some?
        invariant j <= |conn| && forall k | 0 <= k < j :: conn[k].url.Some?
      {
        j := j + 1;
      }
      FirstFreeIs(conn, j);
      var slot := Conn(Some(ParamsOf(u)), Some(Dec(j)), i, dbOpened, made);
      assert acquired == old(acquired) + HandleOf(drivers, slot);
      made := made + 1;
      if j == |conn| { return None; }
      conn := conn[j := slot];
      return conn[j].index;
    }

    method Close(url: string, closeResult: int) returns (n: int)
      modifies this
      ensures (State(), n) == CloseStep(old(State()), url, closeResult)
    {
      hide Atoi;
      if ':' in url || url == "" || !IsDigit(url[0]) { return -1; }
      var j := Atoi(url);
      if j < 0 || j >= |conn| { return -1; }
      var i := conn[j].driver;
      if conn[j].db.Some? && i < |drivers| && drivers[i].hasClose {
        released := released + multiset{Handle(i, conn[j].db.value, conn[j].serial)};
        n := closeResult;
      } else {
        n := 0;
      }
      assert released == old(released) + HandleOf(drivers, old(conn[j]));
      conn := conn[j := conn[j].(url := None, index := None)];
    }

    /** sdb_query up to the call of the driver: a handle is looked up, a url is resolved by its scheme. */
    method Query(url: Option<string>) returns (t: Target)
      requires (url.Some? ==> NulFree(url.value)) && forall d | d in drivers :: NulFree(d.name)
      ensures t == QueryTarget(State(), url)
    {
      hide DriverNamed, Atoi, IndexOf;
      if url.None? { return NoTarget; }
      var u := url.value;
      if ':' !in u {
        var j := Atoi(u);
        if j < 0 || j >= |conn| || conn[j].url.None? { return NoTarget; }
        if conn[j].index != Some(u) { return NoTarget; }
        return Target(conn[j].driver, conn[j].db, conn[j].url.value);
      }
      var i := Lookup(url);
      if i.None? { return NoTarget; }
      return Target(i.value, None, ParamsOf(u));
    }

    /** sdb_exit closes, by its number, every slot that has a url. */
    method Exit()
      modifies this
      ensures State() == ExitFrom(old(State()), 0)
    {
      hide CloseStep, Dec;
      var i := 0;
      while i < |conn|
        invariant i <= |conn| && ExitFrom(State(), i) == ExitFrom(old(State()), 0)
      {
        if conn[i].url.Some? {
          CloseKeepsSize(State(), Dec(i));
          var _ := Close(Dec(i), 0);
        }
        i := i + 1;
      }
    }
  }

  lemma DriverNamedIs(drivers: seq<Driver>, name: string, i: nat)
    requires NamedFirst(drivers, i, name)
    ensures DriverNamed(drivers, name) == Some(i)
  {
    hide SameIgnoringCase;
    var d := DriverNamed(drivers, name);
    assert d.Some?;
  }

  lemma FirstFreeIs(conn: seq<Conn>, j: nat)
    requires j <= |conn| && (j < |conn| ==> conn[j].url.None?) && forall k | 0 <= k < j :: conn[k].url.Some?
    ensures FirstFree(conn) == j
  {
    var i := FirstFree(conn);
    assert i < |conn| ==> conn[i].url.None?;
  }

  lemma CloseKeepsSize(l: Lib, url: string)
    ensures |CloseStep(l, url, 0).0.conn| == |l.conn|
  {
    hide Atoi;
  }

  /** Closing the open slots from number `i` on. */
  function ExitFrom(l: Lib, i: nat): Lib
    decreases |l.conn| - i
  {
    if i >= |l.conn| then l
    else if l.conn[i].url.Some? then
      CloseKeepsSize(l, Dec(i));
      ExitFrom(CloseStep(l, Dec(i), 0).0, i + 1)
    else ExitFrom(l, i + 1)
  }

  // ---- The invariant of the connection table ----

  predicate SlotOk(drivers: seq<Driver>, conn: seq<Conn>, j: nat)
    requires j < |conn|
  {
    (conn[j].url.Some? <==> conn[j].index.Some?)
    && (conn[j].index.Some? ==> conn[j].index.value == Dec(j) && conn[j].driver < |drivers|)
  }

  /** A slot has a url exactly when it has an index, and the index is the decimal text of its number. */
  predicate Inv(l: Lib) {
    |l.conn| == CONN_MAX && forall j | 0 <= j < CONN_MAX :: SlotOk(l.drivers, l.conn, j)
  }

  datatype Op = OpenOp(url: Option<string>, db: Option<nat>) | CloseOp(handle: string, result: int)

  predicate OpDefined(l: Lib, op: Op) {
    op.OpenOp? ==> OpenDefined(l, op.url)
  }

  function StepOp(l: Lib, op: Op): Lib
    requires OpDefined(l, op)
  {
    match op
    case OpenOp(url, db) => OpenStep(l, url, db).0
    case CloseOp(handle, n) => CloseStep(l, handle, n).0
  }

  lemma StepKeepsInv(l: Lib, op: Op)
    requires Inv(l) && OpDefined(l, op)
    ensures Inv(StepOp(l, op)) && StepOp(l, op).drivers == l.drivers
  {
    hide Dec, Atoi, DriverNamed, IndexOf;
    var l' := StepOp(l, op);
    forall j | 0 <= j < CONN_MAX ensures |l'.conn| == CONN_MAX && SlotOk(l'.drivers, l'.conn, j) {
      assert SlotOk(l.drivers, l.conn, j);
    }
  }

  predicate OpsDefined(l: Lib, ops: seq<Op>)
    decreases |ops|
  {
    ops != [] ==> OpDefined(l, ops[0]) && OpsDefined(StepOp(l, ops[0]), ops[1..])
  }

  function RunOps(l: Lib, ops: seq<Op>): Lib
    requires OpsDefined(l, ops)
    decreases |ops|
  {
    if ops == [] then l else RunOps(StepOp(l, ops[0]), ops[1..])
  }

  lemma {:induction false} RunKeepsInv(l: Lib, ops: seq<Op>)
    requires Inv(l) && OpsDefined(l, ops)
    ensures Inv(RunOps(l, ops)) && RunOps(l, ops).drivers == l.drivers
    decreases |ops|
  {
    hide Inv, StepOp, OpDefined;
    if ops != [] {
      StepKeepsInv(l, ops[0]);
      RunKeepsInv(StepOp(l, ops[0]), ops[1..]);
    }
  }

  function Initial(drivers: seq<Driver>): Lib {
    Lib(drivers, seq(CONN_MAX, _ => NoConn), 0, multiset{}, multiset{})
  }

  /** In every reachable state the handles of two open connections differ. */
  lemma HandlesAreDistinct(drivers: seq<Driver>, ops: seq<Op>, i: nat, j: nat)
    requires OpsDefined(Initial(drivers), ops) && i < j < CONN_MAX
    ensures var l := RunOps(Initial(drivers), ops);
      && Inv(l)
      && (l.conn[i].url.Some? && l.conn[j].url.Some? ==> l.conn[i].index != l.conn[j].index)
  {
    hide RunOps, OpsDefined, Dec;
    RunKeepsInv(Initial(drivers), ops);
    var l := RunOps(Initial(drivers), ops);
    assert SlotOk(l.drivers, l.conn, i) && SlotOk(l.drivers, l.conn, j);
    if Dec(i) == Dec(j) { DecInjective(i, j); }
  }

  predicate LeastFree(conn: seq<Conn>, j: nat) {
    j < |conn| && conn[j].url.None? && forall k | 0 <= k < j :: conn[k].url.Some?
  }

  /** sdb_open gives the decimal number of the least free slot, and nothing when there is none. */
  lemma OpenTakesLeastSlot(l: Lib, url: Option<string>, db: Option<nat>)
    requires Inv(l) && OpenDefined(l, url) && LookupDriver(l.drivers, url).Some?
    ensures var (l', h) := OpenStep(l, url, db);
      && (h.None? <==> forall k | 0 <= k < CONN_MAX :: l.conn[k].url.Some?)
      && (h.Some? ==> exists j: nat :: LeastFree(l.conn, j) && h == Some(Dec(j))
                        && l'.conn == l.conn[j := l'.conn[j]] && l'.conn[j].url == Some(ParamsOf(url.value)))
  {
    hide Dec, DriverNamed, IndexOf;
    var j := FirstFree(l.conn);
    assert j < |l.conn| ==> LeastFree(l.conn, j);
  }

  lemma DecHasNoColon(n: nat)
    ensures ':' !in Dec(n) && IsDigit(Dec(n)[0])
  {
    hide Dec;
    assert Dec(n)[0] in Dec(n);
  }

  /** A colon-free text is accepted by sdb_query exactly when it is the decimal number of an open slot. */
  lemma HandleResolves(l: Lib, u: string)
    requires Inv(l) && ':' !in u
    ensures QueryTarget(l, Some(u)).Target? <==> exists j :: 0 <= j < CONN_MAX && l.conn[j].url.Some? && u == Dec(j)
  {
    hide Dec, Atoi;
    var j := Atoi(u);
    if 0 <= j < CONN_MAX { assert SlotOk(l.drivers, l.conn, j); }
    forall k | 0 <= k < CONN_MAX && l.conn[k].url.Some? && u == Dec(k) ensures QueryTarget(l, Some(u)).Target? {
      AtoiOfDec(k);
      assert SlotOk(l.drivers, l.conn, k);
    }
  }

  /** A url is resolved by its scheme in any mixture of cases, and the driver gets what follows the first colon. */
  lemma SchemeInAnyCase(l: Lib, i: nat, scheme: string, params: string)
    requires NamedFirst(l.drivers, i, scheme) && ':' !in scheme && |scheme| <= 1000
    ensures var url := scheme + ":" + params;
      LookupDriver(l.drivers, Some(url)) == Some(i) && QueryTarget(l, Some(url)) == Target(i, None, params)
  {
    hide DriverNamed, IndexOf, SameIgnoringCase;
    var url := scheme + ":" + params;
    IndexOfSplit(scheme, ':', params);
    assert url[|scheme|] == ':' && url[..|scheme|] == scheme && url[|scheme| + 1..] == params;
    DriverNamedIs(l.drivers, scheme, i);
  }

  /** The same at an input: a driver registered as "text" answers to "TEXT". */
  lemma CapitalsFindDriver(params: string)
    ensures QueryTarget(Initial([Driver("text", false, false)]), Some("TEXT:" + params)) == Target(0, None, params)
  {
    hide DriverNamed, IndexOf;
    SchemeInAnyCase(Initial([Driver("text", false, false)]), 0, "TEXT", params);
    assert "TEXT" + ":" + params == "TEXT:" + params;
  }

  /**
    The codes of sdb_close: -1 and nothing changes for a text with a colon, without a leading
    digit, or with the number of no slot; otherwise, whatever follows the number, what the
    driver's close function returns, and 0 if there is no connection or no such function.
   */
  lemma CloseCodes(l: Lib, url: string, j: nat, junk: string, n: int)
    requires |l.conn| == 100 && ':' !in junk && (junk != "" ==> junk[0] !in "0123456789")
    ensures ':' in url || url == "" || url[0] !in "0123456789" ==> CloseStep(l, url, n) == (l, -1)
    ensures j >= 100 ==> CloseStep(l, Dec(j) + junk, n) == (l, -1)
    ensures j < 100 ==>
      var c := l.conn[j]; var (l', code) := CloseStep(l, Dec(j) + junk, n);
      && code == (if c.db.Some? && c.driver < |l.drivers| && l.drivers[c.driver].hasClose then n else 0)
      && l'.conn == l.conn[j := c.(url := None, index := None)] && l'.acquired == l.acquired
      && l'.drivers == l.drivers
  {
    hide Dec, Atoi;
    DigitsListed();
    AtoiOfDecThen(j, junk);
    DecHasNoColon(j);
  }

  lemma DigitsListed()
    ensures forall c :: IsDigit(c) ==> c in "0123456789"
  {
    forall c | IsDigit(c) ensures c in "0123456789" {
      DigitIsWritten(DigitValue(c));
    }
  }

  // ---- A handle stands for its url ----

  predicate LeavesOpen(op: Op, j: nat) {
    op.CloseOp? ==> CloseSlot(CONN_MAX, op.handle) != Some(j)
  }

  lemma {:induction false} SlotStays(l: Lib, ops: seq<Op>, j: nat)
    requires Inv(l) && OpsDefined(l, ops) && j < CONN_MAX && l.conn[j].url.Some?
    requires forall op | op in ops :: LeavesOpen(op, j)
    ensures |RunOps(l, ops).conn| == CONN_MAX && RunOps(l, ops).conn[j] == l.conn[j]
    decreases |ops|
  {
    hide Dec, Atoi, DriverNamed, IndexOf, CloseSlot;
    if ops != [] {
      assert LeavesOpen(ops[0], j);
      StepKeepsInv(l, ops[0]);
      SlotStays(StepOp(l, ops[0]), ops[1..], j);
    }
  }

  /**
    As long as the handle from opening a url has not been closed, and whatever else was opened
    and closed, a query by the handle calls the same driver with the same parameters as a
    query by the url; only the connection differs, the kept one instead of none.
   */
  lemma HandleStandsForUrl(l: Lib, url: string, db: Option<nat>, ops: seq<Op>)
    requires Inv(l) && OpenDefined(l, Some(url)) && OpenStep(l, Some(url), db).1.Some?
    requires var (l1, h) := OpenStep(l, Some(url), db);
      OpsDefined(l1, ops) && forall op | op in ops :: LeavesOpen(op, FirstFree(l.conn))
    ensures var (l1, h) := OpenStep(l, Some(url), db); var l2 := RunOps(l1, ops);
      var byHandle, byUrl := QueryTarget(l2, h), QueryTarget(l2, Some(url));
      && byHandle.Target? && byUrl.Target?
      && byHandle.driver == byUrl.driver && byHandle.params == byUrl.params == ParamsOf(url)
      && byUrl.driver < |l.drivers| && byUrl.db == None
      && byHandle.db == if l.drivers[byUrl.driver].hasOpen then db else None
  {
    hide Dec, Atoi, DriverNamed, IndexOf, CloseSlot, RunOps, OpsDefined, FirstFree;
    var (l1, h) := OpenStep(l, Some(url), db);
    var j := FirstFree(l.conn);
    StepKeepsInv(l, OpenOp(Some(url), db));
    SlotStays(l1, ops, j);
    RunKeepsInv(l1, ops);
    AtoiOfDec(j);
    DecHasNoColon(j);
  }

  // ---- What is acquired is released ----

  function Held(drivers: seq<Driver>, c: Conn): multiset<Handle> {
    if c.url.Some? then HandleOf(drivers, c) else multiset{}
  }

  /** The connections that open slots hold. */
  function Live(drivers: seq<Driver>, conn: seq<Conn>): multiset<Handle> {
    if conn == [] then multiset{} else Live(drivers, conn[..|conn| - 1]) + Held(drivers, conn[|conn| - 1])
  }

  lemma {:induction false} LiveUpdate(drivers: seq<Driver>, conn: seq<Conn>, j: nat, c: Conn, h: Handle)
    requires j < |conn|
    ensures Live(drivers, conn[j := c])[h] + Held(drivers, conn[j])[h] == Live(drivers, conn)[h] + Held(drivers, c)[h]
    decreases |conn|
  {
    hide Held;
    var k := |conn| - 1;
    if j < k {
      assert conn[j := c][..k] == conn[..k][j := c];
      LiveUpdate(drivers, conn[..k], j, c, h);
    } else {
      assert conn[j := c][..k] == conn[..k];
    }
  }

  /** A connection made although the table is full: nobody will close it. */
  function Leaked(l: Lib, op: Op): multiset<Handle>
    requires OpDefined(l, op)
  {
    if op.OpenOp? && FirstFree(l.conn) == |l.conn| then
      match LookupDriver(l.drivers, op.url)
      case None => multiset{}
      case Some(i) => HandleOf(l.drivers, Conn(op.url, None, i, if l.drivers[i].hasOpen then op.db else None, l.made))
    else multiset{}
  }

  /** A connection handed to its driver's close function although its slot is not open. */
  function ClosedAgain(l: Lib, op: Op): multiset<Handle> {
    if op.OpenOp? then multiset{} else
    match CloseSlot(|l.conn|, op.handle)
    case None => multiset{}
    case Some(j) => if l.conn[j].url.Some? then multiset{} else HandleOf(l.drivers, l.conn[j])
  }

  /** The books of one handle over one call. */
  lemma StepBalances(l: Lib, op: Op, h: Handle)
    requires OpDefined(l, op)
    ensures var l' := StepOp(l, op);
      l'.acquired[h] + l.released[h] + Live(l.drivers, l.conn)[h] + ClosedAgain(l, op)[h]
        == l.acquired[h] + l'.released[h] + Live(l.drivers, l'.conn)[h] + Leaked(l, op)[h]
  {
    hide Dec, Atoi, DriverNamed, IndexOf, Live, FirstFree;
    match op
    case OpenOp(url, db) =>
      if LookupDriver(l.drivers, url).Some? && FirstFree(l.conn) < |l.conn| {
        var j := FirstFree(l.conn);
        LiveUpdate(l.drivers, l.conn, j, StepOp(l, op).conn[j], h);
      }
    case CloseOp(handle, n) =>
      match CloseSlot(|l.conn|, handle)
      case None =>
      case Some(j) => LiveUpdate(l.drivers, l.conn, j, StepOp(l, op).conn[j], h);
  }

  function AllLeaked(l: Lib, ops: seq<Op>): multiset<Handle>
    requires OpsDefined(l, ops)
    decreases |ops|
  {
    if ops == [] then multiset{} else Leaked(l, ops[0]) + AllLeaked(StepOp(l, ops[0]), ops[1..])
  }

  function AllClosedAgain(l: Lib, ops: seq<Op>): multiset<Handle>
    requires OpsDefined(l, ops)
    decreases |ops|
  {
    if ops == [] then multiset{} else ClosedAgain(l, ops[0]) + AllClosedAgain(StepOp(l, ops[0]), ops[1..])
  }

  lemma {:induction false} RunBalances(l: Lib, ops: seq<Op>, h: Handle)
    requires Inv(l) && OpsDefined(l, ops)
    ensures var l' := RunOps(l, ops);
      l'.acquired[h] + l.released[h] + Live(l.drivers, l.conn)[h] + AllClosedAgain(l, ops)[h]
        == l.acquired[h] + l'.released[h] + Live(l.drivers, l'.conn)[h] + AllLeaked(l, ops)[h]
    decreases |ops|
  {
    hide Inv, StepOp, OpDefined, Live, Leaked, ClosedAgain;
    if ops != [] {
      StepKeepsInv(l, ops[0]);
      StepBalances(l, ops[0], h);
      RunBalances(StepOp(l, ops[0]), ops[1..], h);
    }
  }

  lemma {:induction false} NothingLive(drivers: seq<Driver>, conn: seq<Conn>)
    requires forall c | c in conn :: c.url.None?
    ensures Live(drivers, conn) == multiset{}
  {
    if conn != [] { NothingLive(drivers, conn[..|conn| - 1]); }
  }

  lemma {:induction false} ExitReleases(l: Lib, i: nat, h: Handle)
    requires Inv(l) && i <= CONN_MAX && forall k | 0 <= k < i :: l.conn[k].url.None?
    ensures var l' := ExitFrom(l, i);
      && |l'.conn| == CONN_MAX && l'.acquired == l.acquired
      && l'.released[h] == l.released[h] + Live(l.drivers, l.conn)[h]
      && forall c | c in l'.conn :: c.url.None?
    decreases CONN_MAX - i
  {
    hide Dec, Atoi, Live;
    if i == CONN_MAX {
      NothingLive(l.drivers, l.conn);
    } else if l.conn[i].url.Some? {
      AtoiOfDec(i);
      DecHasNoColon(i);
      var l1 := CloseStep(l, Dec(i), 0).0;
      StepKeepsInv(l, CloseOp(Dec(i), 0));
      StepBalances(l, CloseOp(Dec(i), 0), h);
      ExitReleases(l1, i + 1, h);
    } else {
      ExitReleases(l, i + 1, h);
    }
  }

  /** Conservation over whole runs and exit, for any calls at all, of one connection. */
  lemma {:induction false} RunAndExitBalance(drivers: seq<Driver>, ops: seq<Op>, h: Handle)
    requires OpsDefined(Initial(drivers), ops)
    ensures var l := ExitFrom(RunOps(Initial(drivers), ops), 0);
      && l.acquired[h] + AllClosedAgain(Initial(drivers), ops)[h] == l.released[h] + AllLeaked(Initial(drivers), ops)[h]
      && forall c | c in l.conn :: c.url.None?
  {
    hide OpsDefined, RunOps, Live, AllLeaked, AllClosedAgain, ExitFrom;
    var l0 := Initial(drivers);
    NothingLive(drivers, l0.conn);
    RunKeepsInv(l0, ops);
    RunBalances(l0, ops, h);
    ExitReleases(RunOps(l0, ops), 0, h);
  }

  // ---- The two defects ----

  /** sdb_open is called on a full table and the driver makes a connection that it could close. */
  predicate Leaks(l: Lib, op: Op) {
    && op.OpenOp? && op.db.Some? && FirstFree(l.conn) == |l.conn|
    && match LookupDriver(l.drivers, op.url)
       case None => false
       case Some(i) => l.drivers[i].hasOpen && l.drivers[i].hasClose
  }

  /** sdb_close is called on a slot that is not open but still has the connection it once held. */
  predicate ClosesAgain(l: Lib, op: Op) {
    && op.CloseOp?
    && match CloseSlot(|l.conn|, op.handle)
       case None => false
       case Some(j) => l.conn[j].url.None? && Closable(l.drivers, l.conn[j])
  }

  predicate NoDefects(l: Lib, ops: seq<Op>)
    requires OpsDefined(l, ops)
    decreases |ops|
  {
    ops != [] ==> !Leaks(l, ops[0]) && !ClosesAgain(l, ops[0]) && NoDefects(StepOp(l, ops[0]), ops[1..])
  }

  lemma {:induction false} NoDefectsNothingLost(l: Lib, ops: seq<Op>)
    requires OpsDefined(l, ops) && NoDefects(l, ops)
    ensures AllLeaked(l, ops) == multiset{} && AllClosedAgain(l, ops) == multiset{}
    decreases |ops|
  {
    hide StepOp, OpDefined, Atoi, FirstFree, CloseSlot, LookupDriver;
    if ops != [] { NoDefectsNothingLost(StepOp(l, ops[0]), ops[1..]); }
  }

  /** A slot that can be closed again holds a connection that was released before. */
  predicate SlotBooked(l: Lib, c: Conn) {
    Closable(l.drivers, c) ==>
      c.serial < l.made && (c.url.None? ==> l.released[Handle(c.driver, c.db.value, c.serial)] > 0)
  }

  /** Every connection is acquired at most once, and none has the number of a call still to come. */
  ghost predicate Books(l: Lib) {
    && (forall h: Handle :: l.acquired[h] <= 1)
    && (forall h: Handle | h.serial >= l.made :: l.acquired[h] == 0 && l.released[h] == 0)
    && forall j | 0 <= j < |l.conn| :: SlotBooked(l, l.conn[j])
  }

  lemma StepKeepsBooks(l: Lib, op: Op)
    requires Books(l) && OpDefined(l, op)
    ensures Books(StepOp(l, op))
  {
    hide Dec, Atoi, DriverNamed, IndexOf, CloseSlot, ParamsOf, FirstFree;
    var l' := StepOp(l, op);
    forall j | 0 <= j < |l'.conn| ensures SlotBooked(l', l'.conn[j]) {
      assert SlotBooked(l, l.conn[j]);
    }
  }

  /** Nobody holds connection `h`, so nobody will release it. */
  predicate Lost(l: Lib, h: Handle) {
    && h.serial < l.made && l.acquired[h] > 0 && l.released[h] == 0
    && forall j | 0 <= j < |l.conn| :: h !in HandleOf(l.drivers, l.conn[j])
  }

  lemma StepKeepsLost(l: Lib, op: Op, h: Handle)
    requires Lost(l, h) && OpDefined(l, op)
    ensures Lost(StepOp(l, op), h)
  {
    hide Dec, Atoi, DriverNamed, IndexOf, CloseSlot, ParamsOf, FirstFree;
    var l' := StepOp(l, op);
    forall j | 0 <= j < |l'.conn| ensures h !in HandleOf(l'.drivers, l'.conn[j]) {
      assert h !in HandleOf(l.drivers, l.conn[j]);
    }
  }

  /** What no later call changes: lost connections stay lost, and releasing is never undone. */
  lemma {:induction false} RunKeepsBooks(l: Lib, ops: seq<Op>, h: Handle)
    requires Books(l) && OpsDefined(l, ops)
    ensures var l' := RunOps(l, ops);
      && Books(l') && l.released[h] <= l'.released[h]
      && (Lost(l, h) ==> Lost(l', h))
    decreases |ops|
  {
    hide Books, Lost, OpDefined, OpenStep, CloseSlot, HandleOf;
    if ops != [] {
      StepKeepsBooks(l, ops[0]);
      if Lost(l, h) { StepKeepsLost(l, ops[0], h); }
      StepReleases(l, ops[0], h);
      RunKeepsBooks(StepOp(l, ops[0]), ops[1..], h);
    }
  }

  lemma StepReleases(l: Lib, op: Op, h: Handle)
    requires OpDefined(l, op)
    ensures l.released[h] <= StepOp(l, op).released[h]
  {
    hide Dec, Atoi, DriverNamed, IndexOf, CloseSlot, ParamsOf, FirstFree, HandleOf;
  }

  /** The calls that sdb_exit makes. */
  function ExitOps(l: Lib, i: nat): seq<Op>
    decreases |l.conn| - i
  {
    if i >= |l.conn| then []
    else if l.conn[i].url.Some? then
      CloseKeepsSize(l, Dec(i));
      [CloseOp(Dec(i), 0)] + ExitOps(CloseStep(l, Dec(i), 0).0, i + 1)
    else ExitOps(l, i + 1)
  }

  lemma {:induction false} ExitIsRun(l: Lib, i: nat)
    ensures OpsDefined(l, ExitOps(l, i)) && RunOps(l, ExitOps(l, i)) == ExitFrom(l, i)
    decreases |l.conn| - i
  {
    hide Dec, CloseStep;
    if i < |l.conn| {
      if l.conn[i].url.Some? {
        CloseKeepsSize(l, Dec(i));
        var l1 := CloseStep(l, Dec(i), 0).0;
        assert ExitOps(l, i)[1..] == ExitOps(l1, i + 1);
        ExitIsRun(l1, i + 1);
      } else {
        ExitIsRun(l, i + 1);
      }
    }
  }

  lemma ExitKeepsBooks(l: Lib, h: Handle)
    requires Books(l)
    ensures var l' := ExitFrom(l, 0);
      && Books(l') && l.released[h] <= l'.released[h]
      && (Lost(l, h) ==> Lost(l', h))
  {
    hide Books, Lost, ExitFrom, ExitOps, RunOps, OpsDefined;
    ExitIsRun(l, 0);
    RunKeepsBooks(l, ExitOps(l, 0), h);
  }

  lemma LeakIsLost(l: Lib, op: Op)
    requires Books(l) && OpDefined(l, op) && Leaks(l, op)
    ensures Lost(StepOp(l, op), Handle(LookupDriver(l.drivers, op.url).value, op.db.value, l.made))
  {
    hide Dec, Atoi, DriverNamed, IndexOf, CloseSlot, ParamsOf, FirstFree;
    var h := Handle(LookupDriver(l.drivers, op.url).value, op.db.value, l.made);
    forall j | 0 <= j < |l.conn| ensures h !in HandleOf(l.drivers, l.conn[j]) {
      assert SlotBooked(l, l.conn[j]);
    }
  }

  /** A connection that a call makes on a full table is lost; one that it closes again is released twice. */
  lemma DefectShows(l: Lib, op: Op) returns (h: Handle)
    requires Books(l) && OpDefined(l, op) && (Leaks(l, op) || ClosesAgain(l, op))
    ensures Lost(StepOp(l, op), h) || StepOp(l, op).released[h] >= 2
  {
    hide Dec, Atoi, DriverNamed, IndexOf, CloseSlot, ParamsOf, FirstFree;
    if Leaks(l, op) {
      LeakIsLost(l, op);
      h := Handle(LookupDriver(l.drivers, op.url).value, op.db.value, l.made);
    } else {
      var c := l.conn[CloseSlot(|l.conn|, op.handle).value];
      h := Handle(c.driver, c.db.value, c.serial);
      assert SlotBooked(l, c);
    }
  }

  lemma {:induction false} DefectsShow(l: Lib, ops: seq<Op>) returns (h: Handle)
    requires Books(l) && OpsDefined(l, ops) && !NoDefects(l, ops)
    ensures Lost(RunOps(l, ops), h) || RunOps(l, ops).released[h] >= 2
    decreases |ops|
  {
    hide Books, Lost, StepOp, OpDefined, Leaks, ClosesAgain;
    var l1 := StepOp(l, ops[0]);
    StepKeepsBooks(l, ops[0]);
    if Leaks(l, ops[0]) || ClosesAgain(l, ops[0]) {
      h := DefectShows(l, ops[0]);
      RunKeepsBooks(l1, ops[1..], h);
    } else {
      h := DefectsShow(l1, ops[1..]);
    }
  }

  /**
    For any calls at all, followed by exit: no slot is open, no connection was acquired twice,
    and every connection was released exactly as often as it was acquired, that is exactly
    once, if and only if no call made one on a full table and no call closed one again.
   */
  lemma AcquiredIsReleased(drivers: seq<Driver>, ops: seq<Op>)
    requires OpsDefined(Initial(drivers), ops)
    ensures var l := ExitFrom(RunOps(Initial(drivers), ops), 0);
      && (forall c | c in l.conn :: c.url.None?)
      && (forall h: Handle :: l.acquired[h] <= 1)
      && (l.acquired == l.released <==> NoDefects(Initial(drivers), ops))
      && l.acquired + AllClosedAgain(Initial(drivers), ops) == l.released + AllLeaked(Initial(drivers), ops)
  {
    hide OpsDefined, RunOps, AllLeaked, AllClosedAgain, ExitFrom, NoDefects;
    var l0 := Initial(drivers);
    var l1 := RunOps(l0, ops);
    var l := ExitFrom(l1, 0);
    var again, leaked := AllClosedAgain(l0, ops), AllLeaked(l0, ops);
    forall h: Handle
      ensures l.acquired[h] <= 1 && l.acquired[h] + again[h] == l.released[h] + leaked[h]
      ensures forall c | c in l.conn :: c.url.None?
    {
      RunAndExitBalance(drivers, ops, h);
      RunKeepsBooks(l0, ops, h);
      ExitKeepsBooks(l1, h);
    }
    assert l.acquired[Handle(0, 0, 0)] <= 1;
    assert l.acquired + again == l.released + leaked;
    if NoDefects(l0, ops) {
      NoDefectsNothingLost(l0, ops);
    } else {
      var h := DefectsShow(l0, ops);
      RunKeepsBooks(l0, ops, h);
      ExitKeepsBooks(l1, h);
    }
  }

  /** Calls that close only open slots and open only while a slot is free. */
  predicate Proper(l: Lib, ops: seq<Op>)
    requires OpsDefined(l, ops)
    decreases |ops|
  {
    ops != [] ==>
      (match ops[0]
       case OpenOp(url, _) => LookupDriver(l.drivers, url).Some? ==> FirstFree(l.conn) < |l.conn|
       case CloseOp(handle, _) =>
         CloseSlot(|l.conn|, handle).Some? ==> l.conn[CloseSlot(|l.conn|, handle).value].url.Some?)
      && Proper(StepOp(l, ops[0]), ops[1..])
  }

  lemma {:induction false} ProperHasNoDefects(l: Lib, ops: seq<Op>)
    requires OpsDefined(l, ops) && Proper(l, ops)
    ensures NoDefects(l, ops)
    decreases |ops|
  {
    hide StepOp, OpDefined, Atoi, FirstFree, CloseSlot, LookupDriver;
    if ops != [] { ProperHasNoDefects(StepOp(l, ops[0]), ops[1..]); }
  }

  /** After a proper run and exit every connection was closed exactly once, by its own driver. */
  lemma ProperRunClosesAll(drivers: seq<Driver>, ops: seq<Op>)
    requires OpsDefined(Initial(drivers), ops) && Proper(Initial(drivers), ops)
    ensures var l := ExitFrom(RunOps(Initial(drivers), ops), 0);
      && l.acquired == l.released && (forall h: Handle :: l.acquired[h] <= 1) && forall c | c in l.conn :: c.url.None?
  {
    hide OpsDefined, Proper, RunOps, AllLeaked, AllClosedAgain, ExitFrom, NoDefects;
    AcquiredIsReleased(drivers, ops);
    ProperHasNoDefects(Initial(drivers), ops);
  }

  lemma {:induction false} OpensFill(l: Lib, op: Op, n: nat)
    requires Inv(l) && op.OpenOp? && OpDefined(l, op) && LookupDriver(l.drivers, op.url).Some?
    requires FirstFree(l.conn) + n == CONN_MAX && forall k | FirstFree(l.conn) <= k < CONN_MAX :: l.conn[k].url.None?
    ensures OpsDefined(l, seq(n, _ => op))
    ensures var l' := RunOps(l, seq(n, _ => op));
      && Inv(l') && l'.drivers == l.drivers && FirstFree(l'.conn) == CONN_MAX && l'.made == l.made + n
    decreases n
  {
    hide Inv, Dec, Atoi, DriverNamed, IndexOf, FirstFree, ParamsOf;
    StepKeepsInv(l, op);
    if n > 0 {
      var ops, l1 := seq(n, _ => op), StepOp(l, op);
      var j := FirstFree(l.conn);
      assert ops[1..] == seq(n - 1, _ => op);
      assert |l.conn| == CONN_MAX by { InvSize(l); }
      FirstFreeIs(l1.conn, j + 1);
      OpensFill(l1, op, n - 1);
    }
  }

  lemma InitialInv(drivers: seq<Driver>)
    ensures Inv(Initial(drivers))
  {
  }

  lemma InvSize(l: Lib)
    requires Inv(l)
    ensures |l.conn| == CONN_MAX
  {
  }

  predicate NeverReleased(l: Lib, h: Handle) {
    l.acquired[h] == 1 && l.released[h] == 0
  }

  /** A connection made on a full table is acquired, and whatever is called later does not release it. */
  lemma LeakIsNeverReleased(l: Lib, op: Op, later: seq<Op>)
    requires Books(l) && OpDefined(l, op) && Leaks(l, op) && OpsDefined(StepOp(l, op), later)
    ensures var h := Handle(LookupDriver(l.drivers, op.url).value, op.db.value, l.made);
      NeverReleased(ExitFrom(RunOps(StepOp(l, op), later), 0), h)
  {
    hide OpsDefined, RunOps, OpDefined, StepOp, FirstFree, ExitFrom, LookupDriver;
    var h := Handle(LookupDriver(l.drivers, op.url).value, op.db.value, l.made);
    var l1 := StepOp(l, op);
    LeakIsLost(l, op);
    StepKeepsBooks(l, op);
    RunKeepsBooks(l1, later, h);
    ExitKeepsBooks(RunOps(l1, later), h);
  }

  /**
    The leak at an input: of 101 connections opened at once, sdb_open gives no handle for the
    last one, and no calls whatever release it, nor does exit.
   */
  lemma OpenOnFullTableLeaks(drivers: seq<Driver>, url: string, db: nat, i: nat, later: seq<Op>)
    requires OpenDefined(Initial(drivers), Some(url)) && LookupDriver(drivers, Some(url)) == Some(i)
    requires i < |drivers| && drivers[i].hasOpen && drivers[i].hasClose
    ensures var ops := seq(100, _ => OpenOp(Some(url), Some(db)));
      OpsDefined(Initial(drivers), ops)
      && (var (l, handle) := OpenStep(RunOps(Initial(drivers), ops), Some(url), Some(db));
          handle == None
          && (OpsDefined(l, later) ==> NeverReleased(ExitFrom(RunOps(l, later), 0), Handle(i, db, 100))))
  {
    hide OpsDefined, RunOps, Dec, Atoi, DriverNamed, IndexOf, ExitFrom, ParamsOf, Inv;
    var op := OpenOp(Some(url), Some(db));
    var l0 := Initial(drivers);
    var h := Handle(i, db, CONN_MAX);
    FirstFreeIs(l0.conn, 0);
    InitialInv(drivers);
    OpensFill(l0, op, CONN_MAX);
    var ops := seq(CONN_MAX, _ => op);
    var l1 := RunOps(l0, ops);
    RunKeepsBooks(l0, ops, h);
    InvSize(l1);
    if OpsDefined(StepOp(l1, op), later) { LeakIsNeverReleased(l1, op, later); }
  }

  /** Closing a handle twice hands the same connection to the driver twice. */
  lemma ClosingTwiceReleasesTwice(l: Lib, j: nat)
    requires Inv(l) && j < CONN_MAX && l.conn[j].url.Some? && Closable(l.drivers, l.conn[j])
    ensures var h := Handle(l.conn[j].driver, l.conn[j].db.value, l.conn[j].serial);
      var twice := CloseStep(CloseStep(l, Dec(j), 0).0, Dec(j), 0).0;
      twice.released == l.released + multiset{h, h}
  {
    hide Dec, Atoi;
    AtoiOfDec(j);
    DecHasNoColon(j);
  }
}
