/**
 * The cert-to-name list of the TLS server (section 7 of RFC 7589): a linked list kept in order of
 * the entry ids, and the lookup of a client certificate by its fingerprints, whose digests are
 * computed at most once. The digests are a parameter.
 */
module CertToName {
  import opened Text

  datatype MapType = Unknown | Specified | SanRfc822 | SanDns | SanIp | SanAny | CommonName

  /** An entry; serial numbers tell in which order entries were added. */
  datatype Entry = Entry(id: nat, fingerprint: string, mapType: MapType, name: Option<string>, serial: nat)

  class Ctn {
    const data: Entry
    var next: Ctn?

    constructor (data: Entry)
      ensures this.data == data && next == null
    {
      this.data, next := data, null;
    }
  }

  // ---------------------------------------------------------------- the order

  predicate Before(a: Entry, b: Entry) {
    a.id < b.id || (a.id == b.id && a.serial < b.serial)
  }

  /** Sorted by id, and by order of insertion among equal ids. */
  predicate Ordered(entries: seq<Entry>) {
    forall i, j :: 0 <= i < j < |entries| ==> Before(entries[i], entries[j])
  }

  /** All entries were added before the serial number reached the given one. */
  predicate Older(entries: seq<Entry>, serial: nat) {
    forall i :: 0 <= i < |entries| ==> entries[i].serial < serial
  }

  lemma InsertKeepsOrder(entries: seq<Entry>, e: Entry, k: nat)
    requires Ordered(entries) && k <= |entries|
    requires Older(entries, e.serial)
    requires forall i :: 0 <= i < k ==> entries[i].id <= e.id
    requires forall i :: k <= i < |entries| ==> entries[i].id > e.id
    ensures Ordered(entries[..k] + [e] + entries[k..])
  {
    var r := entries[..k] + [e] + entries[k..];
    forall i, j | 0 <= i < j < |r| ensures Before(r[i], r[j]) {
      assert r[i] == if i < k then entries[i] else if i == k then e else entries[i - 1];
      assert r[j] == if j < k then entries[j] else if j == k then e else entries[j - 1];
    }
  }

  // ---------------------------------------------------------------- deletion

  /** What a deletion asks for; None matches anything. */
  datatype Query = Query(id: Option<nat>, fingerprint: Option<string>, mapType: Option<MapType>, name: Option<string>)

  predicate Matches(q: Query, e: Entry) {
    && (q.id.None? || q.id.value == e.id)
    && (q.fingerprint.None? || q.fingerprint.value == e.fingerprint)
    && (q.mapType.None? || q.mapType.value == e.mapType)
    && (q.name.None? || (e.name.Some? && q.name.value == e.name.value))
  }

  /** Some field that was asked for is another one; a name that was asked for may be missing. */
  predicate Differs(q: Query, e: Entry) {
    || (q.id != None && q.id != Some(e.id))
    || (q.fingerprint != None && q.fingerprint != Some(e.fingerprint))
    || (q.mapType != None && q.mapType != Some(e.mapType))
    || (q.name != None && q.name != e.name)
  }

  /** The entries that do not match, in order. */
  function Others(q: Query, entries: seq<Entry>): seq<Entry> {
    if entries == [] then [] else
    var n := |entries| - 1;
    Others(q, entries[..n]) + if Matches(q, entries[n]) then [] else [entries[n]]
  }

  lemma {:induction false} OthersMembers(q: Query, entries: seq<Entry>, e: Entry)
    ensures e in Others(q, entries) <==> e in entries && !Matches(q, e)
  {
    if entries != [] {
      var n := |entries| - 1;
      OthersMembers(q, entries[..n], e);
      assert entries == entries[..n] + [entries[n]];
    }
  }

  lemma {:induction false} NoOthers(q: Query, entries: seq<Entry>)
    requires forall i :: 0 <= i < |entries| ==> Matches(q, entries[i])
    ensures Others(q, entries) == []
  {
    if entries != [] { NoOthers(q, entries[..|entries| - 1]); }
  }

  lemma {:induction false} FewerOthers(q: Query, entries: seq<Entry>)
    ensures |Others(q, entries)| <= |entries|
    ensures |Others(q, entries)| < |entries| <==> exists e :: e in entries && Matches(q, e)
  {
    if entries != [] {
      var n := |entries| - 1;
      FewerOthers(q, entries[..n]);
      assert forall e :: e in entries <==> e in entries[..n] || e == entries[n];
    }
  }

  lemma {:induction false} OthersOrdered(q: Query, entries: seq<Entry>)
    requires Ordered(entries)
    ensures Ordered(Others(q, entries))
  {
    if entries != [] {
      var n := |entries| - 1;
      var init := entries[..n];
      OthersOrdered(q, init);
      forall e | e in Others(q, init) ensures Before(e, entries[n]) {
        OthersMembers(q, init, e);
        var i :| 0 <= i < n && init[i] == e;
        assert entries[i] == e;
      }
    }
  }

  lemma OthersOlder(q: Query, entries: seq<Entry>, serial: nat)
    requires Older(entries, serial)
    ensures Older(Others(q, entries), serial)
  {
    var others := Others(q, entries);
    forall i | 0 <= i < |others| ensures others[i].serial < serial {
      OthersMembers(q, entries, others[i]);
    }
  }

  // ---------------------------------------------------------------- lookup

  type Digest = s: seq<nat> | |s| > 0 && forall i :: 0 <= i < |s| ==> s[i] < 256 witness [0]

  /** The digest of the certificate for each algorithm, if it can be computed. */
  type Digests = nat -> Option<Digest>

  function HexDigit(n: nat): char
    requires n < 16
  {
    if n < 10 then '0' + n as char else 'a' + (n - 10) as char
  }

  /** digest_to_str(): two hexadecimal digits a byte, colons between them. */
  function DigestText(d: seq<nat>): string
    requires forall i :: 0 <= i < |d| ==> d[i] < 256
  {
    if d == [] then "" else
    [HexDigit(d[0] / 16), HexDigit(d[0] % 16)] + (if |d| == 1 then "" else ":" + DigestText(d[1..]))
  }

  function Lower(c: char): char {
    if 'A' <= c <= 'Z' then c - 'A' + 'a' else c
  }

  /** strcasecmp() == 0 */
  predicate SameIgnoringCase(a: string, b: string) {
    |a| == |b| && forall i :: 0 <= i < |a| ==> Lower(a[i]) == Lower(b[i])
  }

  /** The hash algorithm a fingerprint starts with: "01" to "06". */
  function Algorithm(fingerprint: string): (a: Option<nat>)
    ensures a.Some? ==> 1 <= a.value <= 6
  {
    if |fingerprint| >= 2 && fingerprint[0] == '0' && '1' <= fingerprint[1] <= '6'
    then Some(fingerprint[1] as int - '0' as int)
    else None
  }

  function HashPart(fingerprint: string): string {
    if |fingerprint| >= 3 then fingerprint[3..] else ""
  }

  predicate Fits(e: Entry, digests: Digests) {
    var a := Algorithm(e.fingerprint);
    a.Some? && digests(a.value).Some? &&
    SameIgnoringCase(HashPart(e.fingerprint), DigestText(digests(a.value).value))
  }

  // What a fingerprint says, without reference to how the digest is printed.

  function HexValue(c: char): Option<nat> {
    if '0' <= c <= '9' then Some(c as int - '0' as int)
    else if 'a' <= c <= 'f' then Some(10 + (c as int - 'a' as int))
    else if 'A' <= c <= 'F' then Some(10 + (c as int - 'A' as int))
    else None
  }

  /** Bytes written as pairs of hexadecimal digits in either case, with colons between them. */
  function HexBytes(s: string): Option<seq<nat>> {
    if |s| < 2 || HexValue(s[0]).None? || HexValue(s[1]).None? then None else
    var byte := 16 * HexValue(s[0]).value + HexValue(s[1]).value;
    if |s| == 2 then Some([byte])
    else if s[2] != ':' || HexBytes(s[3..]).None? then None
    else Some([byte] + HexBytes(s[3..]).value)
  }

  /** The first two characters are the number of a hash algorithm, 1 to 6. */
  predicate Numbers(fingerprint: string, a: nat) {
    1 <= a <= 6 && |fingerprint| >= 2 && fingerprint[..2] == "0" + Decimal(a)
  }

  lemma AlgorithmIff(fingerprint: string, a: nat)
    ensures Algorithm(fingerprint) == Some(a) <==> Numbers(fingerprint, a)
  {
    if |fingerprint| >= 2 && 1 <= a <= 6 {
      assert Decimal(a) == [DigitChar(a)];
      assert fingerprint[..2] == [fingerprint[0], fingerprint[1]];
      assert "0" + Decimal(a) == ['0', DigitChar(a)];
      assert fingerprint[..2] == "0" + Decimal(a) <==> fingerprint[0] == '0' && fingerprint[1] == DigitChar(a);
    }
  }

  lemma HexDigitIff(c: char, n: nat)
    requires n < 16
    ensures Lower(c) == Lower(HexDigit(n)) <==> HexValue(c) == Some(n)
  {
  }

  predicate SpellsByte(a: char, b: char, byte: nat) {
    HexValue(a).Some? && HexValue(b).Some? && 16 * HexValue(a).value + HexValue(b).value == byte
  }

  lemma ByteIff(a: char, b: char, byte: nat)
    requires byte < 256
    ensures SpellsByte(a, b, byte) <==>
              Lower(a) == Lower(HexDigit(byte / 16)) && Lower(b) == Lower(HexDigit(byte % 16))
  {
    HexDigitIff(a, byte / 16);
    HexDigitIff(b, byte % 16);
  }

  lemma TextOfMore(d: seq<nat>)
    requires |d| > 1 && forall k :: 0 <= k < |d| ==> d[k] < 256
    ensures var text, rest := DigestText(d), DigestText(d[1..]);
            |text| == 3 + |rest| && text[2] == ':' && text[3..] == rest
  {
    assert DigestText(d) == [HexDigit(d[0] / 16), HexDigit(d[0] % 16)] + (":" + DigestText(d[1..]));
  }

  lemma TextOfFirst(d: seq<nat>)
    requires d != [] && forall k :: 0 <= k < |d| ==> d[k] < 256
    ensures |DigestText(d)| >= 2 && (|d| == 1 ==> |DigestText(d)| == 2)
    ensures SpellsByte(DigestText(d)[0], DigestText(d)[1], d[0])
  {
    ByteIff(HexDigit(d[0] / 16), HexDigit(d[0] % 16), d[0]);
  }

  /** The text of a digest: byte i in hexadecimal at 3 * i, a colon between bytes. */
  lemma {:induction false} DigestTextSpells(d: seq<nat>, i: nat)
    requires (forall k :: 0 <= k < |d| ==> d[k] < 256) && i < |d|
    ensures |DigestText(d)| == 3 * |d| - 1
    ensures SpellsByte(DigestText(d)[3 * i], DigestText(d)[3 * i + 1], d[i])
    ensures i + 1 < |d| ==> DigestText(d)[3 * i + 2] == ':'
  {
    TextOfFirst(d);
    if |d| > 1 {
      TextOfMore(d);
      DigestTextSpells(d[1..], if i > 0 then i - 1 else 0);
    }
  }

  /** Reading one byte, or one more. */
  lemma HexBytesIff(s: string, d: seq<nat>)
    requires d != []
    ensures HexBytes(s) == Some(d) <==>
              && |s| >= 2 && SpellsByte(s[0], s[1], d[0])
              && if |d| == 1 then |s| == 2 else |s| >= 3 && s[2] == ':' && HexBytes(s[3..]) == Some(d[1..])
  {
    assert d == [d[0]] + d[1..];
    if |s| >= 3 && HexBytes(s).Some? {
      var byte, more := HexBytes(s).value[0], HexBytes(s[3..]).value;
      HexBytesSome(s[3..]);
      assert HexBytes(s).value == [byte] + more;
      assert [byte] + more == d <==> byte == d[0] && more == d[1..];
    } else if |s| == 2 && HexBytes(s).Some? {
      var byte := HexBytes(s).value[0];
      assert [byte] == d <==> |d| == 1 && byte == d[0];
    }
  }

  lemma HexBytesSome(s: string)
    ensures HexBytes(s).Some? ==> HexBytes(s).value != []
  {
  }

  lemma SameByteIff(s: string, d: seq<nat>)
    requires |d| == 1 && d[0] < 256
    ensures SameIgnoringCase(s, DigestText(d)) <==> |s| == 2 && SpellsByte(s[0], s[1], d[0])
  {
    var text := DigestText(d);
    assert |text| == 2 && text[0] == HexDigit(d[0] / 16) && text[1] == HexDigit(d[0] % 16);
    if |s| == 2 { ByteIff(s[0], s[1], d[0]); }
  }

  lemma SameBytesIff(s: string, d: seq<nat>)
    requires |d| > 1 && forall k :: 0 <= k < |d| ==> d[k] < 256
    ensures SameIgnoringCase(s, DigestText(d)) <==>
              && |s| >= 3 && SpellsByte(s[0], s[1], d[0]) && s[2] == ':'
              && SameIgnoringCase(s[3..], DigestText(d[1..]))
  {
    var hi, lo, rest := HexDigit(d[0] / 16), HexDigit(d[0] % 16), DigestText(d[1..]);
    assert DigestText(d) == [hi, lo] + (":" + rest);
    if |s| >= 3 {
      SameSplit(s, hi, lo, rest);
      ByteIff(s[0], s[1], d[0]);
    }
  }

  /** Comparing with the text of a digest is reading the digest, in either case. */
  lemma {:induction false} SameTextIff(s: string, d: seq<nat>)
    requires d != [] && forall k :: 0 <= k < |d| ==> d[k] < 256
    ensures SameIgnoringCase(s, DigestText(d)) <==> HexBytes(s) == Some(d)
    decreases |d|
  {
    HexBytesIff(s, d);
    if |d| == 1 {
      SameByteIff(s, d);
    } else {
      SameBytesIff(s, d);
      if |s| >= 3 { SameTextIff(s[3..], d[1..]); }
    }
  }

  lemma SameSplit(s: string, hi: char, lo: char, rest: string)
    requires |s| >= 3
    ensures SameIgnoringCase(s, [hi, lo] + (":" + rest)) <==>
              Lower(s[0]) == Lower(hi) && Lower(s[1]) == Lower(lo) && s[2] == ':' && SameIgnoringCase(s[3..], rest)
  {
    var text := [hi, lo] + (":" + rest);
    assert text[0] == hi && text[1] == lo && text[2] == ':' && text[3..] == rest;
    assert Lower(s[2]) == Lower(':') <==> s[2] == ':';
    assert forall i :: 0 <= i < |rest| ==> text[i + 3] == rest[i];
    if SameIgnoringCase(s[3..], rest) {
      forall i | 3 <= i < |s| ensures Lower(s[i]) == Lower(text[i]) {
        assert s[3..][i - 3] == s[i] && rest[i - 3] == text[i];
      }
    }
  }

  /**
   * An entry fits if and only if its fingerprint, behind the number of an algorithm and one more
   * character, spells the digest of that algorithm as hexadecimal bytes in either case.
   */
  lemma FitsIff(e: Entry, digests: Digests)
    ensures Fits(e, digests) <==>
              exists a: nat :: Numbers(e.fingerprint, a) && digests(a).Some? && |e.fingerprint| >= 3
                          && HexBytes(e.fingerprint[3..]) == Some(digests(a).value)
    ensures Uncomputable(e, digests) <==> exists a: nat :: Numbers(e.fingerprint, a) && digests(a).None?
  {
    forall a: nat ensures Algorithm(e.fingerprint) == Some(a) <==> Numbers(e.fingerprint, a) {
      AlgorithmIff(e.fingerprint, a);
    }
    var a := Algorithm(e.fingerprint);
    if a.Some? {
      assert Numbers(e.fingerprint, a.value);
      if digests(a.value).Some? {
        SameTextIff(HashPart(e.fingerprint), digests(a.value).value);
      }
    }
  }

  predicate Uncomputable(e: Entry, digests: Digests) {
    var a := Algorithm(e.fingerprint);
    a.Some? && digests(a.value).None?
  }

  datatype Lookup = Found(entry: Entry) | NoMatch | LookupError

  /** The lookup without caches: the first entry that fits, unless a digest fails before it. */
  function LookUp(entries: seq<Entry>, digests: Digests): Lookup {
    if entries == [] then NoMatch
    else if Uncomputable(entries[0], digests) then LookupError
    else if Fits(entries[0], digests) then Found(entries[0])
    else LookUp(entries[1..], digests)
  }

  predicate Passed(e: Entry, digests: Digests) {
    !Fits(e, digests) && !Uncomputable(e, digests)
  }

  /** How far the lookup gets, and why it stops there. */
  lemma {:induction false} LookUpStops(entries: seq<Entry>, digests: Digests) returns (k: nat)
    ensures k <= |entries| && forall i :: 0 <= i < k ==> Passed(entries[i], digests)
    ensures k == |entries| ==> LookUp(entries, digests) == NoMatch
    ensures k < |entries| ==>
              if Uncomputable(entries[k], digests) then LookUp(entries, digests) == LookupError
              else Fits(entries[k], digests) && LookUp(entries, digests) == Found(entries[k])
  {
    if entries == [] || Uncomputable(entries[0], digests) || Fits(entries[0], digests) {
      return 0;
    }
    var rest := entries[1..];
    var j := LookUpStops(rest, digests);
    k := j + 1;
    forall i | 0 <= i < k ensures Passed(entries[i], digests) {
      if i > 0 { assert rest[i - 1] == entries[i]; }
    }
  }

  /** No entry before this one has the property the lookup stops for. */
  ghost predicate NoneBefore(entries: seq<Entry>, e: Entry, digests: Digests) {
    forall x :: x in entries && Before(x, e) ==> Passed(x, digests)
  }

  /**
   * In an ordered list the entry found is the least one that fits, by id and then by insertion,
   * unless the digest of a lesser one cannot be computed; no match means that none fits.
   */
  lemma FoundIsLeast(entries: seq<Entry>, digests: Digests)
    requires Ordered(entries)
    ensures forall e :: LookUp(entries, digests) == Found(e) <==>
                          e in entries && Fits(e, digests) && NoneBefore(entries, e, digests)
    ensures LookUp(entries, digests) == LookupError <==>
              exists e :: e in entries && Uncomputable(e, digests) && NoneBefore(entries, e, digests)
    ensures LookUp(entries, digests) == NoMatch <==> forall x :: x in entries ==> Passed(x, digests)
  {
    var k := LookUpStops(entries, digests);
    if k < |entries| {
      FirstToStop(entries, digests, k);
    }
  }

  lemma FirstToStop(entries: seq<Entry>, digests: Digests, k: nat)
    requires Ordered(entries) && k < |entries| && !Passed(entries[k], digests)
    requires forall i :: 0 <= i < k ==> Passed(entries[i], digests)
    ensures forall e :: e in entries && !Passed(e, digests) && NoneBefore(entries, e, digests) <==> e == entries[k]
  {
    forall x | x in entries && Before(x, entries[k]) ensures Passed(x, digests) {
      var i :| 0 <= i < |entries| && entries[i] == x;
    }
    forall e | e in entries && !Passed(e, digests) && NoneBefore(entries, e, digests) ensures e == entries[k] {
      var i :| 0 <= i < |entries| && entries[i] == e;
      assert entries[k] in entries;
    }
  }

  /** The lookup as the source does it: every digest is computed when first needed, then kept. */
  method LookUpCached(first: Ctn?, digests: Digests, ghost nodes: seq<Ctn>) returns (r: Lookup)
    requires IsList(nodes, first)
    ensures r == if nodes == [] then LookupError else LookUp(Data(nodes), digests)
  {
    if first == null {
      return LookupError;
    }
    var cache: map<nat, string> := map[];
    var ctn := first;
    ghost var i := 0;
    assert Data(nodes)[0..] == Data(nodes);
    while ctn != null
      invariant i <= |nodes| && ctn == At(nodes, i)
      invariant forall a :: a in cache ==> digests(a).Some? && cache[a] == DigestText(digests(a).value)
      invariant LookUp(Data(nodes), digests) == LookUp(Data(nodes)[i..], digests)
      decreases |nodes| - i
    {
      assert Data(nodes)[i..][0] == ctn.data;
      assert Data(nodes)[i..][1..] == Data(nodes)[i + 1..];
      var algorithm := Algorithm(ctn.data.fingerprint);
      if algorithm.Some? {
        var a := algorithm.value;
        if a !in cache {
          var digest := digests(a);
          if digest.None? {
            return LookupError;
          }
          cache := cache[a := DigestText(digest.value)];
        }
        if SameIgnoringCase(HashPart(ctn.data.fingerprint), cache[a]) {
          return Found(ctn.data);
        }
      }
      ctn := ctn.next;
      i := i + 1;
    }
    return NoMatch;
  }

  // ---------------------------------------------------------------- the linked list

  function At(nodes: seq<Ctn>, i: nat): Ctn? {
    if i < |nodes| then nodes[i] else null
  }

  ghost predicate IsList(nodes: seq<Ctn>, first: Ctn?)
    reads nodes
  {
    && first == At(nodes, 0)
    && (forall i, j :: 0 <= i < j < |nodes| ==> nodes[i] != nodes[j])
    && forall i {:trigger nodes[i].next} :: 0 <= i < |nodes| ==> nodes[i].next == At(nodes, i + 1)
  }

  function Data(nodes: seq<Ctn>): (d: seq<Entry>)
    ensures |d| == |nodes| && forall i :: 0 <= i < |d| ==> d[i] == nodes[i].data
  {
    seq(|nodes|, i requires 0 <= i < |nodes| => nodes[i].data)
  }

  /** The list of struct nc_server_tls_opts. Its nodes are passed along as a ghost argument. */
  class CtnList {
    var first: Ctn?
    /** The number of entries added so far. */
    var added: nat

    /** A proper list in order. */
    ghost predicate Valid(nodes: seq<Ctn>)
      reads this, nodes
    {
      && IsList(nodes, first)
      && Ordered(Data(nodes)) && Older(Data(nodes), added)
    }

    constructor ()
      ensures Valid([])
    {
      first, added := null, 0;
    }

    /** Adds an entry behind all entries with the same or a smaller id; invalid arguments are refused. */
    method Add(id: nat, fingerprint: Option<string>, mapType: MapType, name: Option<string>, ghost nodes: seq<Ctn>)
      returns (r: int, ghost nodes': seq<Ctn>)
      requires Valid(nodes)
      modifies this, nodes
      ensures Valid(nodes')
      ensures r == if fingerprint.None? || mapType.Unknown? || mapType.Specified? != name.Some? then -1 else 0
      ensures r == -1 ==> nodes' == nodes && added == old(added)
      ensures r == 0 ==>
                && added == old(added) + 1
                && var e := Entry(id, fingerprint.value, mapType, name, old(added));
                   exists k :: 0 <= k <= |nodes| && Data(nodes') == Data(nodes)[..k] + [e] + Data(nodes)[k..]
    {
      if fingerprint.None? || mapType.Unknown? ||
         (mapType.Specified? && name.None?) || (!mapType.Specified? && name.Some?) {
        return -1, nodes;
      }
      var node := new Ctn(Entry(id, fingerprint.value, mapType, name, added));
      ghost var k := Link(node, nodes);
      SplicedInOrder(nodes, node, k, added);
      added := added + 1;
      return 0, nodes[..k] + [node] + nodes[k..];
    }

    /** Splices a node into the list at its place. */
    method Link(node: Ctn, ghost nodes: seq<Ctn>) returns (ghost k: nat)
      requires Valid(nodes) && node !in nodes && node.next == null
      modifies this`first, (set n | n in nodes)`next, node`next
      ensures k <= |nodes| && IsList(nodes[..k] + [node] + nodes[k..], first)
      ensures k > 0 ==> nodes[k - 1].data.id <= node.data.id
      ensures k < |nodes| ==> nodes[k].data.id > node.data.id
    {
      k := 0;
      if first == null || first.data.id > node.data.id {
        node.next := first;
        first := node;
      } else {
        var ctn;
        ctn, k := FindPlace(node.data.id, nodes);
        node.next := ctn.next;
        ctn.next := node;
      }
      Spliced(nodes, node, k);
    }

    /** Deletes exactly the entries that match; -1 if there are none. */
    method Del(q: Query, ghost nodes: seq<Ctn>) returns (r: int, ghost nodes': seq<Ctn>)
      requires Valid(nodes)
      modifies this`first, (set n | n in nodes)`next
      ensures Valid(nodes') && Data(nodes') == Others(q, Data(nodes))
      ensures r == if exists e :: e in Data(nodes) && Matches(q, e) then 0 else -1
      ensures forall e :: e in Data(nodes') <==> e in Data(nodes) && Differs(q, e)
    {
      forall e ensures e in Others(q, Data(nodes)) <==> e in Data(nodes) && Differs(q, e) {
        OthersMembers(q, Data(nodes), e);
      }
      OthersOrdered(q, Data(nodes));
      if q.id.None? && q.fingerprint.None? && q.mapType.None? && q.name.None? {
        NoOthers(q, Data(nodes));
        assert first != null ==> Data(nodes)[0] in Data(nodes);
        r := if first != null then 0 else -1;
        first := null;
        return r, [];
      }
      r, nodes' := DelMatching(q, nodes);
      FewerOthers(q, Data(nodes));
      OthersOlder(q, Data(nodes), added);
    }

    method DelMatching(q: Query, ghost nodes: seq<Ctn>) returns (r: int, ghost list: seq<Ctn>)
      requires IsList(nodes, first)
      modifies this`first, (set n | n in nodes)`next
      ensures IsList(list, first) && Data(list) == Others(q, Data(nodes))
      ensures r == if |list| < |nodes| then 0 else -1
    {
      r, list := -1, nodes;
      var prev: Ctn? := null;
      var ctn := first;
      ghost var p := 0;
      while ctn != null
        invariant Walk(prev, ctn, list, p) && Progress(q, nodes, list, p)
        invariant |list| <= |nodes| && r == if |list| < |nodes| then 0 else -1
        decreases |list| - p
      {
        Proceeds(q, nodes, list, p);
        if Matches(q, ctn.data) {
          ctn, list := Unlink(prev, ctn, list, p);
          r := 0;
        } else {
          prev, ctn := ctn, ctn.next;
          p := p + 1;
        }
      }
      Done(q, nodes, list);
    }

    /** The walk has come to position p of the list. */
    ghost predicate Walk(prev: Ctn?, ctn: Ctn?, list: seq<Ctn>, p: nat)
      reads this, list
    {
      && IsList(list, first)
      && p <= |list| && ctn == At(list, p) && prev == if p == 0 then null else list[p - 1]
    }

    /** Takes one node out of the list; the walk goes on with the one behind it. */
    method Unlink(prev: Ctn?, ctn: Ctn, ghost list: seq<Ctn>, ghost p: nat) returns (next: Ctn?, ghost rest: seq<Ctn>)
      requires Walk(prev, ctn, list, p)
      modifies this`first, (set n | n in list)`next
      ensures p < |list| && rest == list[..p] + list[p + 1..] && Walk(prev, next, rest, p)
    {
      rest := list[..p] + list[p + 1..];
      next := ctn.next;
      if prev != null {
        prev.next := next;
      } else {
        first := next;
      }
      Unlinked(list, first, p);
    }

    /** The last node whose id is not larger. */
    method FindPlace(id: nat, ghost nodes: seq<Ctn>) returns (ctn: Ctn, ghost k: nat)
      requires IsList(nodes, first) && first != null && first.data.id <= id
      ensures 0 < k <= |nodes| && ctn == nodes[k - 1] && ctn.data.id <= id
      ensures k < |nodes| ==> nodes[k].data.id > id
    {
      ctn := first;
      k := 1;
      while ctn.next != null && ctn.next.data.id <= id
        invariant 0 < k <= |nodes| && ctn == nodes[k - 1] && ctn.data.id <= id
        decreases |nodes| - k
      {
        ctn := ctn.next;
        k := k + 1;
      }
    }
  }

  /** All nodes but those from p on are dealt with: the ones that do not match are the first p. */
  ghost predicate Progress(q: Query, nodes: seq<Ctn>, list: seq<Ctn>, p: nat) {
    var k := |nodes| - (|list| - p);
    && p <= |list| && 0 <= k <= |nodes| && list[p..] == nodes[k..]
    && Data(list[..p]) == Others(q, Data(nodes)[..k])
    && forall n :: n in list ==> n in nodes
  }

  lemma Done(q: Query, nodes: seq<Ctn>, list: seq<Ctn>)
    requires Progress(q, nodes, list, |list|)
    ensures Data(list) == Others(q, Data(nodes))
  {
    assert list[..|list|] == list && Data(nodes)[..|nodes|] == Data(nodes);
  }

  lemma Proceeds(q: Query, nodes: seq<Ctn>, list: seq<Ctn>, p: nat)
    requires Progress(q, nodes, list, p) && p < |list|
    ensures nodes[|nodes| - (|list| - p)] == list[p]
    ensures if Matches(q, list[p].data) then Progress(q, nodes, list[..p] + list[p + 1..], p)
            else Progress(q, nodes, list, p + 1)
  {
    var k := |nodes| - (|list| - p);
    assert list[p..][0] == list[p] && nodes[k..][0] == nodes[k];
    assert list[p + 1..] == list[p..][1..] && nodes[k + 1..] == nodes[k..][1..];
    assert Data(nodes)[..k + 1][..k] == Data(nodes)[..k];
    if Matches(q, list[p].data) {
      var rest := list[..p] + list[p + 1..];
      assert rest[p..] == list[p + 1..] && rest[..p] == list[..p];
    } else {
      assert list[..p + 1] == list[..p] + [list[p]];
      assert Data(list[..p + 1]) == Data(list[..p]) + [list[p].data];
    }
  }

  lemma Unlinked(list: seq<Ctn>, first: Ctn?, p: nat)
    requires p < |list| && first == if p == 0 then At(list, 1) else list[0]
    requires forall i, j :: 0 <= i < j < |list| ==> list[i] != list[j]
    requires forall i {:trigger list[i].next} ::
               0 <= i < |list| && i != p - 1 && i != p ==> list[i].next == At(list, i + 1)
    requires p > 0 ==> list[p - 1].next == At(list, p + 1)
    ensures var rest := list[..p] + list[p + 1..];
            IsList(rest, first) && At(rest, p) == At(list, p + 1) && (p > 0 ==> rest[p - 1] == list[p - 1])
  {
    var rest := list[..p] + list[p + 1..];
    forall i | 0 <= i < |rest| ensures rest[i] == (if i < p then list[i] else list[i + 1]) {}
  }

  lemma Spliced(nodes: seq<Ctn>, node: Ctn, k: nat)
    requires k <= |nodes| && node !in nodes
    requires forall i, j :: 0 <= i < j < |nodes| ==> nodes[i] != nodes[j]
    requires forall i {:trigger nodes[i].next} :: 0 <= i < |nodes| && i != k - 1 ==> nodes[i].next == At(nodes, i + 1)
    requires k > 0 ==> nodes[k - 1].next == node
    requires node.next == At(nodes, k)
    ensures var r := nodes[..k] + [node] + nodes[k..]; IsList(r, r[0])
  {
    var r := nodes[..k] + [node] + nodes[k..];
    forall i | 0 <= i < |r| ensures r[i] == (if i < k then nodes[i] else if i == k then node else nodes[i - 1]) {}
    forall i | 0 <= i < |r| ensures r[i].next == At(r, i + 1) {
    }
    forall i, j | 0 <= i < j < |r| ensures r[i] != r[j] {
    }
  }

  lemma DataSpliced(nodes: seq<Ctn>, node: Ctn, k: nat, bound: nat)
    requires k <= |nodes| && node.data.serial == bound
    requires Older(Data(nodes), bound)
    ensures var r := nodes[..k] + [node] + nodes[k..];
            && Data(r) == Data(nodes)[..k] + [node.data] + Data(nodes)[k..]
            && Older(Data(r), bound + 1)
  {
    var r := nodes[..k] + [node] + nodes[k..];
    var d := Data(nodes)[..k] + [node.data] + Data(nodes)[k..];
    forall i | 0 <= i < |r| ensures Data(r)[i] == d[i] && d[i].serial < bound + 1 {
      if i < k {
        assert d[i] == Data(nodes)[i];
      } else if i > k {
        assert d[i] == Data(nodes)[i - 1];
      }
    }
  }

  /** A node spliced in at its place leaves the entries in order. */
  lemma SplicedInOrder(nodes: seq<Ctn>, node: Ctn, k: nat, bound: nat)
    requires k <= |nodes| && node.data.serial == bound && Ordered(Data(nodes))
    requires Older(Data(nodes), bound)
    requires k > 0 ==> nodes[k - 1].data.id <= node.data.id
    requires k < |nodes| ==> nodes[k].data.id > node.data.id
    ensures var r := nodes[..k] + [node] + nodes[k..];
            && Data(r) == Data(nodes)[..k] + [node.data] + Data(nodes)[k..]
            && Ordered(Data(r))
            && Older(Data(r), bound + 1)
  {
    DataSpliced(nodes, node, k, bound);
    PlaceIsRight(Data(nodes), node.data.id, k);
    InsertKeepsOrder(Data(nodes), node.data, k);
  }

  lemma PlaceIsRight(entries: seq<Entry>, id: nat, k: nat)
    requires Ordered(entries) && k <= |entries|
    requires k > 0 ==> entries[k - 1].id <= id
    requires k < |entries| ==> entries[k].id > id
    ensures forall i :: 0 <= i < k ==> entries[i].id <= id
    ensures forall i :: k <= i < |entries| ==> entries[i].id > id
  {
    forall i | 0 <= i < k ensures entries[i].id <= id {
      if i < k - 1 { assert Before(entries[i], entries[k - 1]); }
    }
    forall i | k <= i < |entries| ensures entries[i].id > id {
    }
  }
}
