/**
 * The authorized keys of an SSH endpoint and the call-home binds of a client: two more arrays that
 * lose their matching entries to the sweep of SwapRemoval.
 */
module DeleteLoops {
  import opened Endpoints
  import opened SwapRemoval
  import opened Text

  datatype AuthKey = AuthKey(path: string, username: string)

  predicate KeyMatches(path: Option<string>, username: Option<string>, k: AuthKey) {
    (path.None? || k.path == path.value) && (username.None? || k.username == username.value)
  }

  predicate BindMatches(address: Option<string>, port: nat, ti: TransportImpl, b: Bind) {
    && (address.None? || b.address == address.value)
    && (port == 0 || b.port == port)
    && (ti.NoTransport? || b.ti == ti)
  }

  /** Without arguments the array is freed as a whole; otherwise it is swept. */
  function Remaining<T>(s: seq<T>, everything: bool, p: T -> bool): seq<T> {
    if everything then [] else Sweep(s, p)
  }

  class AuthKeys {
    var keys: seq<AuthKey>

    /** All matching keys go exactly when no argument is given or the matches come early enough. */
    method Del(path: Option<string>, username: Option<string>) returns (r: int)
      modifies this
      ensures var all := path.None? && username.None?;
              && keys == Remaining(old(keys), all, k => KeyMatches(path, username, k))
              && (NoneIn(keys, k => KeyMatches(path, username, k)) <==>
                    all || Early(old(keys), k => KeyMatches(path, username, k)))
      ensures r == if NoneIn(old(keys), k => KeyMatches(path, username, k)) then -1 else 0
      ensures r == 0 <==> exists k :: k in old(keys) && (path == None || path == Some(k.path))
                                      && (username == None || username == Some(k.username))
    {
      var p := k => KeyMatches(path, username, k);
      SweepClearsIff(keys, p);
      assert NoneIn(keys, p) <==> forall k :: k in keys ==> !p(k) by {
        assert forall i :: 0 <= i < |keys| ==> keys[i] in keys;
      }
      if path.None? && username.None? {
        r := if |keys| > 0 then 0 else -1;
        assert |keys| > 0 ==> p(keys[0]);
        keys := [];
      } else {
        r, keys := DeleteMatching(keys, p);
      }
    }
  }

  class CallHomeBinds {
    var binds: seq<Bind>

    /** All matching binds go exactly when no argument is given or the matches come early enough. */
    method Del(address: Option<string>, port: nat, ti: TransportImpl) returns (r: int)
      modifies this
      ensures var all := address.None? && port == 0 && ti.NoTransport?;
              && binds == Remaining(old(binds), all, b => BindMatches(address, port, ti, b))
              && (NoneIn(binds, b => BindMatches(address, port, ti, b)) <==>
                    all || Early(old(binds), b => BindMatches(address, port, ti, b)))
      ensures r == if NoneIn(old(binds), b => BindMatches(address, port, ti, b)) then -1 else 0
      ensures r == 0 <==> exists b :: b in old(binds) && (address == None || address == Some(b.address))
                                      && (port == 0 || port == b.port) && (ti == NoTransport || ti == b.ti)
    {
      var p := b => BindMatches(address, port, ti, b);
      SweepClearsIff(binds, p);
      assert NoneIn(binds, p) <==> forall b :: b in binds ==> !p(b) by {
        assert forall i :: 0 <= i < |binds| ==> binds[i] in binds;
      }
      if address.None? && port == 0 && ti.NoTransport? {
        r := if |binds| > 0 then 0 else -1;
        assert |binds| > 0 ==> p(binds[0]);
        binds := [];
      } else {
        r, binds := DeleteMatching(binds, p);
      }
    }
  }
}
