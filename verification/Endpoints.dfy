/**
 * The listening endpoints of the server: two parallel arrays, the binds with their sockets and the
 * endpoints with their names and options, kept as a map from transport and name. What listening on
 * an address gives, a new socket or -1, is a parameter.
 */
module Endpoints {
  import opened SwapRemoval
  import opened Text

  datatype TransportImpl = NoTransport | Fd | LibSsh | OpenSsl

  datatype AuthMethod = PublicKey | Password | Interactive

  datatype Options = NoOptions | SshOptions(methods: set<AuthMethod>, attempts: nat, timeout: nat) | TlsOptions

  datatype Bind = Bind(address: string, port: nat, sock: int, ti: TransportImpl)

  datatype Endpt = Endpt(name: string, options: Options)

  type Row = (Bind, Endpt)

  type Key = (TransportImpl, string)

  function KeyOf(r: Row): Key {
    (r.0.ti, r.1.name)
  }

  function DefaultOptions(ti: TransportImpl): Options {
    match ti
    case LibSsh => SshOptions({PublicKey, Password, Interactive}, 3, 10)
    case OpenSsl => TlsOptions
    case _ => NoOptions
  }

  // ---------------------------------------------------------------- the table as one sequence

  function Rows(binds: seq<Bind>, endpts: seq<Endpt>): (rows: seq<Row>)
    requires |binds| == |endpts|
    ensures |rows| == |binds| && forall i :: 0 <= i < |rows| ==> rows[i] == (binds[i], endpts[i])
  {
    seq(|binds|, i requires 0 <= i < |binds| == |endpts| => (binds[i], endpts[i]))
  }

  predicate Distinct(rows: seq<Row>) {
    forall i, j :: 0 <= i < j < |rows| ==> KeyOf(rows[i]) != KeyOf(rows[j]) && rows[i].0.sock != rows[j].0.sock
  }

  function Sockets(rows: seq<Row>): set<int> {
    set r | r in rows :: r.0.sock
  }

  function Keys(rows: seq<Row>): set<Key> {
    set r | r in rows :: KeyOf(r)
  }

  ghost function RowWith(rows: seq<Row>, k: Key): (r: Row)
    requires k in Keys(rows)
    ensures r in rows && KeyOf(r) == k
  {
    var r :| r in rows && KeyOf(r) == k;
    r
  }

  /** The map that the table stands for. */
  ghost function View(rows: seq<Row>): map<Key, Row> {
    map k | k in Keys(rows) :: RowWith(rows, k)
  }

  /** What the map holds under the key of a row is that row. */
  lemma ViewAt(rows: seq<Row>, r: Row)
    requires Distinct(rows) && r in rows
    ensures KeyOf(r) in View(rows) && View(rows)[KeyOf(r)] == r
  {
    Apart(rows, r);
    assert KeyOf(r) in Keys(rows);
  }

  lemma ViewWithout(rows: seq<Row>, rest: seq<Row>, r: Row)
    requires Distinct(rows) && Distinct(rest) && r in rows
    requires forall x :: x in rest <==> x in rows && x != r
    ensures View(rest) == View(rows) - {KeyOf(r)} && Sockets(rest) == Sockets(rows) - {r.0.sock}
  {
    Apart(rows, r);
    assert Keys(rest) == Keys(rows) - {KeyOf(r)};
    forall k | k in Keys(rest) ensures View(rest)[k] == View(rows)[k] {
      var x := RowWith(rest, k);
      ViewAt(rest, x);
      ViewAt(rows, x);
    }
  }

  lemma ViewWith(rows: seq<Row>, rows': seq<Row>, r: Row)
    requires Distinct(rows) && Distinct(rows')
    requires forall x :: x in rows' <==> x == r || (x in rows && KeyOf(x) != KeyOf(r))
    ensures View(rows') == View(rows)[KeyOf(r) := r]
  {
    assert r in rows' && Keys(rows') == Keys(rows) + {KeyOf(r)} by {
      forall k | k in Keys(rows) ensures k in Keys(rows') {
        var x := RowWith(rows, k);
        assert k != KeyOf(r) ==> x in rows';
      }
    }
    forall k | k in Keys(rows') ensures View(rows')[k] == View(rows)[KeyOf(r) := r][k] {
      var x := RowWith(rows', k);
      ViewAt(rows', x);
      if k != KeyOf(r) { ViewAt(rows, x); }
      ViewAt(rows', r);
    }
  }

  /** Any other row has another key and another socket. */
  lemma Apart(rows: seq<Row>, r: Row)
    requires Distinct(rows) && r in rows
    ensures forall x :: x in rows && x != r ==> KeyOf(x) != KeyOf(r) && x.0.sock != r.0.sock
  {
    var i :| 0 <= i < |rows| && rows[i] == r;
    forall x | x in rows && x != r ensures KeyOf(x) != KeyOf(r) && x.0.sock != r.0.sock {
      var k :| 0 <= k < |rows| && rows[k] == x;
    }
  }

  lemma AppendRow(rows: seq<Row>, r: Row)
    requires Distinct(rows) && r.0.sock !in Sockets(rows) && NoneIn(rows, x => KeyOf(x) == KeyOf(r))
    ensures Distinct(rows + [r]) && Sockets(rows + [r]) == Sockets(rows) + {r.0.sock}
    ensures View(rows + [r]) == View(rows)[KeyOf(r) := r]
  {
    forall i | 0 <= i < |rows| ensures rows[i].0.sock != r.0.sock && KeyOf(rows[i]) != KeyOf(r) {
      assert rows[i] in rows;
    }
    ViewWith(rows, rows + [r], r);
  }

  lemma SwapRemoveMembers(rows: seq<Row>, i: nat)
    requires Distinct(rows) && i < |rows|
    ensures Distinct(SwapRemove(rows, i))
    ensures forall x :: x in SwapRemove(rows, i) <==> x in rows && x != rows[i]
  {
    var rest, n := SwapRemove(rows, i), |rows| - 1;
    forall k | 0 <= k < n ensures rest[k] == (if k == i then rows[n] else rows[k]) {
    }
    forall x | x in rows && x != rows[i] ensures x in rest {
      var k :| 0 <= k < |rows| && rows[k] == x;
      assert if k == n then rest[i] == x else rest[k] == x;
    }
    forall x | x in rest ensures x in rows && x != rows[i] {
      var k :| 0 <= k < n && rest[k] == x;
      assert KeyOf(rest[k]) != KeyOf(rows[i]);
    }
  }

  lemma RemoveRow(rows: seq<Row>, i: nat)
    requires Distinct(rows) && i < |rows|
    ensures var rest := SwapRemove(rows, i);
            && Distinct(rest) && Sockets(rest) == Sockets(rows) - {rows[i].0.sock}
            && View(rest) == View(rows) - {KeyOf(rows[i])}
  {
    SwapRemoveMembers(rows, i);
    ViewWithout(rows, SwapRemove(rows, i), rows[i]);
  }

  lemma UpdateMembers(rows: seq<Row>, i: nat, r: Row)
    requires Distinct(rows) && i < |rows|
    ensures forall x :: x in rows[i := r] <==> x == r || (x in rows && x != rows[i])
  {
    var rows' := rows[i := r];
    forall x | x in rows && x != rows[i] ensures x in rows' {
      var k :| 0 <= k < |rows| && rows[k] == x;
      assert rows'[k] == x;
    }
    forall x | x in rows' && x != r ensures x in rows && x != rows[i] {
      var k :| 0 <= k < |rows| && rows'[k] == x;
      assert KeyOf(rows[k]) != KeyOf(rows[i]);
    }
    assert rows'[i] == r;
  }

  lemma UpdateRow(rows: seq<Row>, i: nat, r: Row)
    requires Distinct(rows) && i < |rows| && KeyOf(r) == KeyOf(rows[i]) && r.0.sock !in Sockets(rows)
    ensures var rows' := rows[i := r];
            && Distinct(rows') && Sockets(rows') == Sockets(rows) - {rows[i].0.sock} + {r.0.sock}
            && View(rows') == View(rows)[KeyOf(r) := r]
  {
    var rows' := rows[i := r];
    forall k | 0 <= k < |rows| && k != i ensures rows[k].0.sock != r.0.sock {
      assert rows[k] in rows;
    }
    UpdateMembers(rows, i, r);
    Apart(rows, rows[i]);
    ViewWith(rows, rows', r);
  }


  // ---------------------------------------------------------------- the operations

  predicate On(ti: TransportImpl, r: Row) {
    r.0.ti == ti
  }

  class EndpointTable {
    var binds: seq<Bind>
    var endpts: seq<Endpt>
    /** The sockets the server listens on. */
    var open: set<int>

    /** The arrays belong together, keys and sockets are unique, and just these sockets are open. */
    ghost predicate Valid()
      reads this
    {
      && |binds| == |endpts|
      && Distinct(Rows(binds, endpts))
      && open == Sockets(Rows(binds, endpts))
    }

    ghost function Table(): seq<Row>
      requires |binds| == |endpts|
      reads this
    {
      Rows(binds, endpts)
    }

    constructor ()
      ensures Valid() && View(Table()) == map[]
    {
      binds, endpts, open := [], [], {};
    }

    /** The place of an endpoint, or the number of endpoints if there is none. */
    method Find(name: string, ti: TransportImpl) returns (i: nat)
      requires Valid()
      ensures i < |endpts| <==> (ti, name) in View(Table())
      ensures i < |endpts| ==> View(Table())[(ti, name)] == (binds[i], endpts[i])
      ensures i >= |endpts| ==> NoneIn(Table(), r => KeyOf(r) == (ti, name))
    {
      i := 0;
      while i < |endpts|
        invariant i <= |endpts| && forall k :: 0 <= k < i ==> KeyOf(Table()[k]) != (ti, name)
      {
        if binds[i].ti == ti && endpts[i].name == name {
          assert Table()[i] in Table();
          ViewAt(Table(), Table()[i]);
          return;
        }
        i := i + 1;
      }
    }

    /** Adds an endpoint under a new key, with a socket and default options of its own. */
    method Add(name: Option<string>, address: Option<string>, port: nat, ti: TransportImpl, listen: int)
      returns (r: int)
      requires Valid() && (listen == -1 || listen !in open)
      modifies this
      ensures Valid()
      ensures r == if name.None? || address.None? || port == 0 || (ti, name.value) in old(View(Table())) || listen == -1
                   then -1 else 0
      ensures r == -1 ==> Table() == old(Table())
      ensures r == 0 ==>
                var row := (Bind(address.value, port, listen, ti), Endpt(name.value, DefaultOptions(ti)));
                View(Table()) == old(View(Table()))[(ti, name.value) := row]
    {
      if name.None? || address.None? || port == 0 {
        return -1;
      }
      var i := Find(name.value, ti);
      if i < |endpts| || listen == -1 {
        return -1;
      }
      var bind, endpt := Bind(address.value, port, listen, ti), Endpt(name.value, DefaultOptions(ti));
      AppendRow(Table(), (bind, endpt));
      assert Rows(binds + [bind], endpts + [endpt]) == Table() + [(bind, endpt)];
      binds, endpts, open := binds + [bind], endpts + [endpt], open + {listen};
      return 0;
    }

    /** Listens on a new address or a new port, one of the two; the old socket is closed. */
    method SetAddressPort(name: Option<string>, address: Option<string>, port: nat, ti: TransportImpl, listen: int)
      returns (r: int)
      requires Valid() && (listen == -1 || listen !in open)
      modifies this
      ensures Valid()
      ensures r == if name.None? || (address.None? <==> port == 0) || ti.NoTransport?
                      || (ti, name.value) !in old(View(Table())) || listen == -1
                   then -1 else 0
      ensures r == -1 ==> Table() == old(Table())
      ensures r == 0 ==>
                var (bind, endpt) := old(View(Table()))[(ti, name.value)];
                var bind' := if address.Some? then bind.(address := address.value, sock := listen)
                             else bind.(port := port, sock := listen);
                View(Table()) == old(View(Table()))[(ti, name.value) := (bind', endpt)]
    {
      if name.None? || (address.None? && port == 0) || (address.Some? && port != 0) || ti.NoTransport? {
        return -1;
      }
      var i := Find(name.value, ti);
      if i >= |endpts| || listen == -1 {
        return -1;
      }
      var bind := binds[i];
      open := open - {bind.sock} + {listen};
      bind := bind.(sock := listen);
      if address.Some? {
        bind := bind.(address := address.value);
      } else {
        bind := bind.(port := port);
      }
      UpdateRow(Table(), i, (bind, endpts[i]));
      assert Rows(binds[i := bind], endpts) == Table()[i := (bind, endpts[i])];
      binds := binds[i := bind];
      return 0;
    }

    /** Closes an endpoint and moves the last one into its place. */
    method RemoveAt(i: nat)
      requires Valid() && i < |endpts|
      modifies this
      ensures Valid() && Table() == SwapRemove(old(Table()), i)
      ensures View(Table()) == old(View(Table())) - {KeyOf(old(Table())[i])}
    {
      RemoveRow(Table(), i);
      ghost var rest := SwapRemove(Table(), i);
      open := open - {binds[i].sock};
      var count := |endpts| - 1;
      if i < count {
        binds, endpts := binds[..count][i := binds[count]], endpts[..count][i := endpts[count]];
      } else {
        binds, endpts := binds[..count], endpts[..count];
      }
      assert Table() == rest;
    }

    /**
     * Removes everything if neither name nor transport is given, the one endpoint of that name and
     * transport if there is a name, and otherwise whatever the sweep over the transport takes.
     */
    method Del(name: Option<string>, ti: TransportImpl) returns (r: int)
      requires Valid()
      modifies this
      ensures Valid()
      ensures name.None? && ti.NoTransport? ==>
                Table() == [] && open == {} && r == if old(Table()) == [] then -1 else 0
      ensures name.Some? ==>
                && View(Table()) == old(View(Table())) - {(ti, name.value)}
                && r == if (ti, name.value) in old(View(Table())) then 0 else -1
      ensures name.None? && !ti.NoTransport? ==>
                && Table() == Sweep(old(Table()), x => On(ti, x))
                && r == if NoneIn(old(Table()), x => On(ti, x)) then -1 else 0
    {
      if name.None? && ti.NoTransport? {
        r := if |endpts| > 0 then 0 else -1;
        binds, endpts, open := [], [], {};
      } else if name.Some? {
        r := DelNamed(name.value, ti);
      } else {
        r := DelTransport(ti);
      }
    }

    /** The deletion loop with a name: it stops at the first match. */
    method DelNamed(name: string, ti: TransportImpl) returns (r: int)
      requires Valid()
      modifies this
      ensures Valid()
      ensures View(Table()) == old(View(Table())) - {(ti, name)}
      ensures r == if (ti, name) in old(View(Table())) then 0 else -1
    {
      var i := Find(name, ti);
      if i < |endpts| {
        RemoveAt(i);
        return 0;
      }
      return -1;
    }

    /** The deletion loop without a name: it goes on behind each removal. */
    method DelTransport(ti: TransportImpl) returns (r: int)
      requires Valid()
      modifies this
      ensures Valid() && Table() == Sweep(old(Table()), x => On(ti, x))
      ensures r == if NoneIn(old(Table()), x => On(ti, x)) then -1 else 0
    {
      ghost var p := x => On(ti, x);
      ghost var rows := Table();
      r := -1;
      var i := 0;
      LeftFromStart(rows, p);
      while i < |endpts|
        invariant Valid() && LeftFrom(Table(), i, p) == Sweep(rows, p)
        invariant |endpts| <= |rows| && r == if |endpts| < |rows| then 0 else -1
        decreases |endpts| + 1 - i
      {
        LeftFromNext(Table(), i, p);
        if binds[i].ti == ti {
          RemoveAt(i);
          r := 0;
        }
        i := i + 1;
      }
      SweepShrinksIff(rows, p);
    }
  }

  // ---------------------------------------------------------------- deleting a whole transport

  /**
   * Deleting all endpoints of a transport keeps every endpoint of another transport and adds none.
   * It clears the transport if and only if none of its m endpoints is among the last m - 1 rows.
   */
  lemma DelTransportClearsIff(rows: seq<Row>, ti: TransportImpl)
    ensures var left := Sweep(rows, x => On(ti, x));
            && (forall x: Row :: x in left ==> x in rows)
            && (forall x: Row :: x in rows && x.0.ti != ti ==> x in left)
            && ((forall x: Row :: x in left ==> !On(ti, x)) <==> Early(rows, x => On(ti, x)))
  {
    var p := x => On(ti, x);
    var left := Sweep(rows, p);
    forall x: Row ensures (x in left ==> x in rows) && (x in rows && x.0.ti != ti ==> x in left) {
      SweepKeepsOthers(rows, p, x);
      assert (x in rows <==> multiset(rows)[x] > 0) && (x in left <==> multiset(left)[x] > 0);
    }
    SweepClearsIff(rows, p);
    assert NoneIn(left, p) <==> forall x: Row :: x in left ==> !On(ti, x) by {
      assert forall i :: 0 <= i < |left| ==> left[i] in left;
    }
  }

  /** Two endpoints on one transport: the second survives the deletion of all of them. */
  lemma DelTransportCanMiss(a: Row, b: Row)
    requires a.0.ti == b.0.ti
    ensures Sweep([a, b], x => On(a.0.ti, x)) == [b]
  {
    SweepCanMiss(a, b, x => On(a.0.ti, x));
  }
}
