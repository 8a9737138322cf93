/**
 * Module capabilities (section 5.6.4 of RFC 6020): the server prints a module as a URI into a
 * buffer of 512 bytes, the client parses the URI and enables the features it names.
 */
module Capability {
  import opened Text

  const BUF_LEN: nat := 512

  // ---------------------------------------------------------------- printing

  function ModulePart(ns: string, name: string, rev: string): string {
    ns + "?module=" + name + RevisionPart(rev)
  }

  function RevisionPart(rev: string): string {
    if rev == "" then "" else "&revision=" + rev
  }

  function FeaturePart(hasFeatures: bool, text: string): string {
    if hasFeatures then "&features=" + text else ""
  }

  function Join(features: seq<string>): string {
    if features == [] then "" else
    var last := |features| - 1;
    Join(features[..last]) + (if last == 0 then "" else ",") + features[last]
  }

  /** The URI with the given features printed; the key appears as soon as the module has features. */
  function Uri(ns: string, name: string, rev: string, hasFeatures: bool, printed: seq<string>): string {
    ModulePart(ns, name, rev) + FeaturePart(hasFeatures, Join(printed))
  }

  /** The test for one more feature; it counts a comma even for the first one. */
  predicate Fits(start: string, features: seq<string>, i: nat)
    requires i < |features|
  {
    |start + Join(features[..i])| + 1 + |features[i]| < BUF_LEN
  }

  /** The first features pass the test, and the next one, if any, does not. */
  predicate IsFitting(start: string, features: seq<string>, count: nat) {
    && count <= |features|
    && (forall i :: 0 <= i < count ==> Fits(start, features, i))
    && (count < |features| ==> !Fits(start, features, count))
  }

  /** How many features are printed. */
  function Fitting(start: string, features: seq<string>, from: nat): (count: nat)
    requires from <= |features| && forall i :: 0 <= i < from ==> Fits(start, features, i)
    ensures IsFitting(start, features, count)
    decreases |features| - from
  {
    if from < |features| && Fits(start, features, from) then Fitting(start, features, from + 1) else from
  }

  /** The module part, with the key if there are features, is written without a look at the buffer. */
  predicate Overruns(ns: string, name: string, rev: string, features: seq<string>) {
    |Uri(ns, name, rev, features != [], [])| >= BUF_LEN
  }

  /** What a server announces for a module; None if it writes past the end of its buffer. */
  function Announced(ns: string, name: string, rev: string, features: seq<string>): Option<string> {
    if Overruns(ns, name, rev, features) then None
    else Some(Uri(ns, name, rev, features != [], features[..Fitting(FeatureStart(ns, name, rev), features, 0)]))
  }

  lemma FittingIsUnique(start: string, features: seq<string>, count: nat)
    requires IsFitting(start, features, count)
    ensures count == Fitting(start, features, 0)
  {
  }

  function FeatureStart(ns: string, name: string, rev: string): string {
    ModulePart(ns, name, rev) + "&features="
  }

  /**
   * Prints the longest prefix of the features that fits. The running length is that of the string
   * throughout, and it stays below the buffer size unless the module part or the key overruns it.
   */
  method PrintModule(ns: string, name: string, rev: string, features: seq<string>)
    returns (str: Option<string>, count: nat)
    ensures str == Announced(ns, name, rev, features)
    ensures str.None? <==> |ModulePart(ns, name, rev)| + (if features == [] then 0 else 10) >= BUF_LEN
    ensures str.Some? ==> |str.value| < BUF_LEN
    ensures str.Some? ==> IsFitting(FeatureStart(ns, name, rev), features, count)
    ensures str.Some? ==>
              (count == 0 <==> features == [] || |ModulePart(ns, name, rev)| + 11 + |features[0]| >= BUF_LEN)
    ensures str.Some? && count == |features| <==> AllFit(ns, name, rev, features)
  {
    var start := ModulePart(ns, name, rev);
    count := 0;
    assert features[..0] == [] && start + "" == start;
    if |start| >= BUF_LEN || (features != [] && |start| + 10 >= BUF_LEN) {
      str := None;
      FirstOverruns(ns, name, rev, features);
    } else if features == [] {
      str := Some(start);
    } else {
      var printed;
      printed, count := AppendFeatures(start + "&features=", features);
      str := Some(printed);
      ConcatAssoc(start, "&features=", Join(features[..count]));
      FittingIsUnique(start + "&features=", features, count);
      NothingFitsIff(ns, name, rev, features, count);
      AllFitIff(ns, name, rev, features, count);
    }
  }

  lemma FirstOverruns(ns: string, name: string, rev: string, features: seq<string>)
    requires Overruns(ns, name, rev, features)
    ensures !AllFit(ns, name, rev, features)
  {
    assert |Uri(ns, name, rev, features != [], features)| >= |Uri(ns, name, rev, features != [], [])|;
  }

  method AppendFeatures(start: string, features: seq<string>) returns (str: string, count: nat)
    requires |start| < BUF_LEN
    ensures IsFitting(start, features, count) && str == start + Join(features[..count]) && |str| < BUF_LEN
  {
    str, count := start, 0;
    var strLen := |str|;
    assert features[..0] == [];
    for i := 0 to |features|
      invariant count == i && strLen == |str| < BUF_LEN
      invariant str == start + Join(features[..i])
      invariant forall k :: 0 <= k < i ==> Fits(start, features, k)
    {
      if strLen + 1 + |features[i]| >= BUF_LEN {
        break;
      }
      assert features[..i + 1][..i] == features[..i];
      ghost var joined := Join(features[..i]);
      ghost var comma := if i == 0 then "" else ",";
      ConcatAssoc(start, joined, comma);
      ConcatAssoc(start, joined + comma, features[i]);
      if i > 0 {
        str := str + ",";
        strLen := strLen + 1;
      }
      assert str == start + (joined + comma);
      str := str + features[i];
      strLen := strLen + |features[i]|;
      count := i + 1;
    }
  }

  lemma NothingFitsIff(ns: string, name: string, rev: string, features: seq<string>, count: nat)
    requires IsFitting(FeatureStart(ns, name, rev), features, count)
    ensures count == 0 <==> features == [] || |ModulePart(ns, name, rev)| + 11 + |features[0]| >= BUF_LEN
  {
    if features != [] {
      assert features[..0] == [];
      assert Fits(FeatureStart(ns, name, rev), features, 0) <==>
             |ModulePart(ns, name, rev)| + 11 + |features[0]| < BUF_LEN;
    }
  }

  /** The whole URI fits the buffer; a single feature needs a byte more than it takes. */
  predicate AllFit(ns: string, name: string, rev: string, features: seq<string>) {
    |Uri(ns, name, rev, features != [], features)| + (if |features| == 1 then 1 else 0) < BUF_LEN
  }

  lemma {:induction false} JoinGrows(features: seq<string>, i: nat)
    requires i < |features|
    ensures |Join(features[..i])| + |features[i]| + (if i == 0 then 0 else 1) <= |Join(features)|
    decreases |features|
  {
    var last := |features| - 1;
    if i < last {
      JoinGrows(features[..last], i);
      assert features[..last][..i] == features[..i];
    }
  }

  lemma AllFitIff(ns: string, name: string, rev: string, features: seq<string>, count: nat)
    requires IsFitting(FeatureStart(ns, name, rev), features, count) && features != []
    ensures count == |features| <==> AllFit(ns, name, rev, features)
  {
    var start, last := FeatureStart(ns, name, rev), |features| - 1;
    assert |Uri(ns, name, rev, true, features)| == |start| + |Join(features)|;
    assert Fits(start, features, last) <==> AllFit(ns, name, rev, features);
    if AllFit(ns, name, rev, features) {
      forall i | 0 <= i < |features| ensures Fits(start, features, i) {
        JoinGrows(features, i);
        if i == 0 && last > 0 { JoinGrows(features, 1); }
      }
    }
  }

  // ---------------------------------------------------------------- parsing

  /** Up to the next '&', or all of it. */
  function UpToAmp(s: string): string {
    match Find(s, "&")
    case Some(k) => s[..k]
    case None => s
  }

  /** The value behind the first occurrence of a key. */
  function Value(cpblt: string, key: string): Option<string> {
    match Find(cpblt, key)
    case Some(k) => Some(UpToAmp(cpblt[k + |key|..]))
    case None => None
  }

  /** Cuts at commas. */
  function Split(s: string): (parts: seq<string>)
    ensures parts != []
    decreases |s|
  {
    match Find(s, ",")
    case None => [s]
    case Some(k) => [s[..k]] + Split(s[k + 1..])
  }

  datatype Parsed = Unknown | Module(name: string, revision: Option<string>, features: Option<seq<string>>)

  /** ctx_check_and_load_model() up to the module lookup, and the features it enables. */
  function Parse(cpblt: string): Parsed {
    match Value(cpblt, "module=")
    case None => Unknown
    case Some(name) =>
      var features := Value(cpblt, "features=");
      Module(name, Value(cpblt, "revision="), if features.Some? then Some(Split(features.value)) else None)
  }

  /** s is the NUL-terminated string at position i of a buffer. */
  ghost predicate StringAt(buf: seq<char>, i: nat, s: string) {
    && i + |s| < |buf| && buf[i + |s|] == '\0'
    && forall k :: i <= k < i + |s| ==> buf[k] == s[k - i] != '\0'
  }

  method ReadString(buf: array<char>, i: nat) returns (s: string)
    requires i < buf.Length && buf[buf.Length - 1] == '\0'
    ensures StringAt(buf[..], i, s)
  {
    var k := i;
    s := "";
    while buf[k] != '\0'
      invariant i <= k < buf.Length && |s| == k - i
      invariant forall j :: i <= j < k ==> buf[j] == s[j - i] != '\0'
      decreases buf.Length - k
    {
      s := s + [buf[k]];
      k := k + 1;
    }
  }

  /** The buffer holds the text with its commas turned into terminators. */
  ghost predicate IsCut(buf: seq<char>, text: string) {
    && |buf| == |text| + 1 && buf[|text|] == '\0'
    && forall i :: 0 <= i < |text| ==> buf[i] == if text[i] == ',' then '\0' else text[i]
  }

  /** Turns commas into terminators and remembers where the last piece starts. */
  method CutAtCommas(text: string) returns (buf: array<char>, last: nat)
    ensures IsCut(buf[..], text) && last <= |text| && fresh(buf)
    ensures forall i :: last <= i < |text| ==> text[i] != ','
    ensures last > 0 ==> text[last - 1] == ','
  {
    var n := |text|;
    buf := new char[n + 1](i => if 0 <= i < n then text[i] else '\0');
    last := 0;
    for ptr := 0 to n
      invariant forall i :: 0 <= i < ptr ==> buf[i] == if text[i] == ',' then '\0' else text[i]
      invariant forall i :: ptr <= i < n ==> buf[i] == text[i]
      invariant buf[n] == '\0' && last <= ptr
      invariant forall i :: last <= i < ptr ==> text[i] != ','
      invariant last > 0 ==> text[last - 1] == ','
    {
      if buf[ptr] == ',' {
        buf[ptr] := '\0';
        last := ptr + 1;
      }
    }
  }

  /** Visits the pieces of a cut buffer one after the other up to the last one. */
  method VisitPieces(buf: array<char>, last: nat, ghost text: string) returns (pieces: seq<string>)
    requires IsCut(buf[..], text) && '\0' !in text && last <= |text|
    requires forall i :: last <= i < |text| ==> text[i] != ','
    requires last > 0 ==> text[last - 1] == ','
    ensures pieces == Split(text)
  {
    ghost var cut, whole := buf[..], Split(text);
    assert cut[|text|] == buf[buf.Length - 1] == '\0';
    var ptr := 0;
    var piece := ReadString(buf, ptr);
    pieces := [piece];
    assert text[0..] == text;
    ghost var done, left := [], whole;
    while ptr != last
      invariant ptr <= last && StringAt(cut, ptr, piece) && pieces == done + [piece]
      invariant whole == done + left && left == Split(text[ptr..])
      decreases last - ptr
    {
      Advance(cut, text, ptr, last, piece, done);
      done, ptr := done + [piece], ptr + |piece| + 1;
      left := Split(text[ptr..]);
      assert whole == done + left;
      piece := ReadString(buf, ptr);
      pieces := pieces + [piece];
    }
    LastPieceEnds(cut, text, ptr, piece);
    LastPiece(piece);
  }

  /** Before the last piece, a piece ends at a comma. */
  lemma PieceEnds(buf: seq<char>, text: string, ptr: nat, last: nat, piece: string)
    requires IsCut(buf, text) && '\0' !in text && StringAt(buf, ptr, piece)
    requires ptr < last <= |text| && text[last - 1] == ','
    ensures ptr + |piece| < last && text[ptr + |piece|] == ','
    ensures text[ptr..][..|piece|] == piece && ',' !in piece
  {
    assert buf[last - 1] == '\0';
    assert text[ptr + |piece|] in text;
    forall k | ptr <= k < ptr + |piece| ensures text[k] == piece[k - ptr] != ',' {
      assert text[k] in text;
    }
  }

  lemma Advance(buf: seq<char>, text: string, ptr: nat, last: nat, piece: string, done: seq<string>)
    requires IsCut(buf, text) && '\0' !in text && StringAt(buf, ptr, piece)
    requires ptr < last <= |text| && text[last - 1] == ','
    requires Split(text) == done + Split(text[ptr..])
    ensures ptr + |piece| < last
    ensures Split(text) == done + [piece] + Split(text[ptr + |piece| + 1..])
  {
    PieceEnds(buf, text, ptr, last, piece);
    var rest := text[ptr + |piece| + 1..];
    assert text[ptr..][|piece| + 1..] == rest;
    FirstPiece(text[ptr..], piece);
    ConcatAssoc(done, [piece], Split(rest));
  }

  lemma LastPieceEnds(buf: seq<char>, text: string, ptr: nat, piece: string)
    requires IsCut(buf, text) && '\0' !in text && StringAt(buf, ptr, piece)
    requires ptr <= |text| && forall i :: ptr <= i < |text| ==> text[i] != ','
    ensures text[ptr..] == piece && ',' !in piece
  {
    forall k | ptr <= k < |text| ensures buf[k] == text[k] != '\0' {
      assert text[k] in text;
    }
    assert ptr + |piece| == |text|;
  }

  /**
   * The features string is cut in place and its pieces are enabled in turn: exactly the parts
   * between commas, in order.
   */
  method EnableFeatures(features: string) returns (enabled: seq<string>)
    requires '\0' !in features
    ensures enabled == Split(features)
  {
    var buf, last := CutAtCommas(features);
    enabled := VisitPieces(buf, last, features);
  }

  lemma FirstPiece(s: string, piece: string)
    requires |piece| < |s| && s[..|piece|] == piece && s[|piece|] == ',' && ',' !in piece
    ensures Split(s) == [piece] + Split(s[|piece| + 1..])
  {
    var rest := s[|piece| + 1..];
    FindAfter(piece, ",", rest);
    assert s == piece + "," + rest;
  }

  lemma LastPiece(s: string)
    requires ',' !in s
    ensures Split(s) == [s]
  {
    NoChar(s, ',');
  }

  // ---------------------------------------------------------------- round trip

  /** Keys end in their only '='. */
  predicate IsKey(key: string) {
    |key| >= 2 && key[|key| - 1] == '=' && '=' !in key[..|key| - 1]
  }

  /** Text that YANG identifiers and revision dates are made of. */
  predicate Plain(s: string) {
    '=' !in s && '&' !in s
  }

  /** Without another '=' no further occurrence of a key can end. */
  lemma FreeTail(s: string, key: string, x: string)
    requires IsKey(key) && !Occurs(s, key) && '=' !in x
    ensures !Occurs(s + x, key)
  {
    var t := s + x;
    forall i ensures !OccursAt(t, key, i) {
      if 0 <= i && i + |key| <= |t| {
        var end := i + |key| - 1;
        assert t[i..i + |key|][|key| - 1] == t[end];
        if end < |s| {
          assert t[i..i + |key|] == s[i..i + |key|];
          assert !OccursAt(s, key, i);
        } else {
          assert t[end] == x[end - |s|];
        }
      }
    }
  }

  /** A different key ends in a different character before its '='. */
  lemma FreeKey(s: string, key: string, x: string)
    requires IsKey(key) && !Occurs(s, key) && '=' !in x && x != "" && x[|x| - 1] != key[|key| - 2]
    ensures !Occurs(s + x + "=", key)
  {
    var t := s + x;
    FreeTail(s, key, x);
    var u := t + "=";
    forall i ensures !OccursAt(u, key, i) {
      if 0 <= i && i + |key| <= |u| {
        if i + |key| <= |t| {
          assert u[i..i + |key|] == t[i..i + |key|];
          assert !OccursAt(t, key, i);
        } else {
          assert u[i..i + |key|][|key| - 2] == u[|u| - 2] == x[|x| - 1];
        }
      }
    }
  }

  /** The key is found where it was printed. */
  lemma FindKey(s: string, x: string, key: string, after: string)
    requires IsKey(key) && !Occurs(s, key) && '=' !in x
    ensures Find(s + x + key + after, key) == Some(|s + x|)
  {
    var before := s + x;
    var t := before + key + after;
    FreeTail(s, key, x);
    var stem := key[..|key| - 1];
    FreeTail(before, key, stem);
    forall i | 0 <= i < |before| ensures !OccursAt(t, key, i) {
      assert !OccursAt(before + stem, key, i);
      if i + |key| <= |t| { assert t[i..i + |key|] == (before + stem)[i..i + |key|]; }
    }
    assert t[|before|..|before| + |key|] == key;
    FirstIsFound(t, key, |before|);
  }

  /** A value ends at the next '&' or at the end. */
  lemma ReadsValue(s: string, x: string, key: string, value: string, rest: string)
    requires IsKey(key) && !Occurs(s, key) && '=' !in x && '&' !in value
    requires rest == "" || rest[0] == '&'
    ensures Value(s + x + key + (value + rest), key) == Some(value)
  {
    FindKey(s, x, key, value + rest);
    var t := s + x + key + (value + rest);
    assert t[|s + x| + |key|..] == value + rest;
    if rest == "" {
      assert value + rest == value;
      NoChar(value, '&');
    } else {
      assert value + rest == value + "&" + rest[1..];
      FindAfter(value, "&", rest[1..]);
    }
  }

  const MODULE := "module="
  const REVISION := "revision="
  const FEATURES := "features="

  lemma KeysAreKeys()
    ensures IsKey(MODULE) && IsKey(REVISION) && IsKey(FEATURES)
  {
  }

  /** No keyword hides in the namespace. */
  ghost predicate FreeOfKeys(ns: string) {
    !Occurs(ns, MODULE) && !Occurs(ns, REVISION) && !Occurs(ns, FEATURES)
  }

  lemma ReadsName(ns: string, name: string, rest: string)
    requires FreeOfKeys(ns) && Plain(name) && (rest == "" || rest[0] == '&')
    ensures Value(ns + "?" + MODULE + (name + rest), MODULE) == Some(name)
  {
    KeysAreKeys();
    ReadsValue(ns, "?", MODULE, name, rest);
  }

  lemma ModuleIsNoOtherKey(ns: string)
    requires FreeOfKeys(ns)
    ensures !Occurs(ns + "?module" + "=", REVISION) && !Occurs(ns + "?module" + "=", FEATURES)
  {
    KeysAreKeys();
    FreeKey(ns, REVISION, "?module");
    FreeKey(ns, FEATURES, "?module");
  }

  lemma ReadsRevision(head: string, name: string, rev: string, rest: string)
    requires !Occurs(head, REVISION) && Plain(name) && Plain(rev) && (rest == "" || rest[0] == '&')
    ensures Value(head + (name + "&") + REVISION + (rev + rest), REVISION) == Some(rev)
  {
    KeysAreKeys();
    ReadsValue(head, name + "&", REVISION, rev, rest);
  }

  lemma ReadsFeatures(head: string, x: string, text: string)
    requires !Occurs(head, FEATURES) && Plain(x) && Plain(text)
    ensures Value(head + (x + "&") + FEATURES + text, FEATURES) == Some(text)
  {
    KeysAreKeys();
    ReadsValue(head, x + "&", FEATURES, text, "");
    assert text + "" == text;
  }

  lemma NoRevision(head: string, name: string, hasFeatures: bool, text: string)
    requires !Occurs(head, REVISION) && Plain(name) && Plain(text)
    ensures Value(head + name + FeaturePart(hasFeatures, text), REVISION) == None
  {
    KeysAreKeys();
    if hasFeatures {
      var x := name + "&features";
      FreeKey(head, REVISION, x);
      FreeTail(head + x + "=", REVISION, text);
      assert head + name + FeaturePart(true, text) == head + x + "=" + text;
    } else {
      FreeTail(head, REVISION, name);
      assert head + name + "" == head + name;
    }
  }

  lemma {:induction false} JoinIsPlain(features: seq<string>)
    requires forall i :: 0 <= i < |features| ==> Plain(features[i])
    ensures Plain(Join(features))
  {
    if features != [] { JoinIsPlain(features[..|features| - 1]); }
  }

  lemma {:induction false} SplitSnoc(s: string, last: string)
    requires ',' !in last
    ensures Split(s + "," + last) == Split(s) + [last]
    decreases |s|
  {
    var t := s + "," + last;
    match Find(s, ",")
    case None =>
      BeforeChar(s, ',', |s|);
      assert s[..|s|] == s;
      FirstPiece(t, s);
      assert t[|s| + 1..] == last;
      LastPiece(last);
    case Some(k) =>
      var first, rest := s[..k], s[k + 1..];
      BeforeChar(s, ',', k);
      assert s[k..k + 1] == "," && s[k] == ',';
      FirstPiece(s, first);
      assert t == first + "," + (rest + "," + last);
      assert t[..k] == first && t[k] == ',' && t[k + 1..] == rest + "," + last;
      FirstPiece(t, first);
      SplitSnoc(rest, last);
      ConcatAssoc([first], Split(rest), [last]);
  }

  /** Cutting at commas undoes joining with commas, for at least one part. */
  lemma {:induction false} JoinRoundTrip(features: seq<string>)
    requires features != [] && forall i :: 0 <= i < |features| ==> ',' !in features[i]
    ensures Split(Join(features)) == features
  {
    var n := |features| - 1;
    var init, last := features[..n], features[n];
    assert features == init + [last];
    if n == 0 {
      assert init == [] && Join(features) == "" + "" + last == last;
      LastPiece(last);
    } else {
      JoinRoundTrip(init);
      SplitSnoc(Join(init), last);
    }
  }

  /** The same URI, grouped around the key that is being looked for. */
  lemma UriGroups(ns: string, name: string, rev: string, hasFeatures: bool, printed: seq<string>)
    ensures var rest := name + (RevisionPart(rev) + FeaturePart(hasFeatures, Join(printed)));
            && Uri(ns, name, rev, hasFeatures, printed) == ns + "?" + MODULE + rest
            && Uri(ns, name, rev, hasFeatures, printed) == ns + "?module" + "=" + rest
  {
    var head, r, f := ns + "?module=", RevisionPart(rev), FeaturePart(hasFeatures, Join(printed));
    ConcatAssoc(head + name, r, f);
    ConcatAssoc(head, name, r + f);
    HeadForms(ns);
  }

  lemma HeadForms(ns: string)
    ensures ns + "?module=" == ns + "?" + MODULE == ns + "?module" + "="
  {
    assert "?module=" == "?" + MODULE && "?module=" == "?module" + "=";
    ConcatAssoc(ns, "?", MODULE);
    ConcatAssoc(ns, "?module", "=");
  }

  lemma RevisionIsNoFeatures(head: string, name: string)
    requires !Occurs(head, FEATURES) && Plain(name)
    ensures !Occurs(head + (name + "&revision") + "=", FEATURES)
  {
    KeysAreKeys();
    FreeKey(head, FEATURES, name + "&revision");
  }

  lemma RevisionField(head: string, name: string, rev: string, hasFeatures: bool, text: string)
    requires !Occurs(head, REVISION) && Plain(name) && Plain(rev) && Plain(text)
    ensures Value(head + (name + (RevisionPart(rev) + FeaturePart(hasFeatures, text))), REVISION)
         == if rev == "" then None else Some(rev)
  {
    var f := FeaturePart(hasFeatures, text);
    if rev == "" {
      assert head + (name + ("" + f)) == head + name + f;
      NoRevision(head, name, hasFeatures, text);
    } else {
      RegroupRevision(head, name, rev, f);
      ReadsRevision(head, name, rev, f);
    }
  }

  lemma FeaturesField(head: string, name: string, rev: string, hasFeatures: bool, text: string)
    requires !Occurs(head, FEATURES) && Plain(name) && Plain(rev) && Plain(text)
    ensures Value(head + (name + (RevisionPart(rev) + FeaturePart(hasFeatures, text))), FEATURES)
         == if hasFeatures then Some(text) else None
  {
    if rev == "" {
      FeaturesBehind(head, name, hasFeatures, text);
      assert RevisionPart(rev) + FeaturePart(hasFeatures, text) == FeaturePart(hasFeatures, text);
    } else {
      RevisionIsNoFeatures(head, name);
      FeaturesBehind(head + (name + "&revision") + "=", rev, hasFeatures, text);
      RegroupRevision(head, name, rev, FeaturePart(hasFeatures, text));
    }
  }

  lemma RegroupRevision(head: string, name: string, rev: string, f: string)
    ensures head + (name + ("&revision=" + rev + f)) == head + (name + "&") + REVISION + (rev + f)
    ensures head + (name + ("&revision=" + rev + f)) == head + (name + "&revision") + "=" + (rev + f)
  {
    assert "&revision=" == "&" + REVISION && "&revision=" == "&revision" + "=";
    assert "&revision=" + rev + f == "&revision=" + (rev + f);
    assert name + ("&revision=" + (rev + f)) == (name + "&") + REVISION + (rev + f);
    assert name + ("&revision=" + (rev + f)) == (name + "&revision") + "=" + (rev + f);
    ConcatAssoc(head, name + "&", REVISION + (rev + f));
    ConcatAssoc(head, name + "&revision", "=" + (rev + f));
  }

  lemma FeaturesBehind(head: string, x: string, hasFeatures: bool, text: string)
    requires !Occurs(head, FEATURES) && Plain(x) && Plain(text)
    ensures Value(head + (x + FeaturePart(hasFeatures, text)), FEATURES) == if hasFeatures then Some(text) else None
  {
    KeysAreKeys();
    if hasFeatures {
      assert head + (x + FeaturePart(true, text)) == head + (x + "&") + FEATURES + text;
      ReadsFeatures(head, x, text);
    } else {
      assert x + "" == x;
      FreeTail(head, FEATURES, x);
    }
  }

  /**
   * Parsing a printed URI recovers the module name and the revision, and enables exactly the
   * printed features in order. If the module has features but the first one did not fit, the
   * empty feature name is enabled instead of none.
   */
  lemma ModuleRoundTrip(ns: string, name: string, rev: string, hasFeatures: bool, printed: seq<string>)
    requires FreeOfKeys(ns) && Plain(name) && Plain(rev)
    requires forall i :: 0 <= i < |printed| ==> Plain(printed[i]) && ',' !in printed[i]
    ensures Parse(Uri(ns, name, rev, hasFeatures, printed))
         == Module(name,
                   if rev == "" then None else Some(rev),
                   if !hasFeatures then None else if printed == [] then Some([""]) else Some(printed))
  {
    var text := Join(printed);
    JoinIsPlain(printed);
    ModuleIsNoOtherKey(ns);
    UriGroups(ns, name, rev, hasFeatures, printed);
    ReadsName(ns, name, RevisionPart(rev) + FeaturePart(hasFeatures, text));
    RevisionField(ns + "?module" + "=", name, rev, hasFeatures, text);
    FeaturesField(ns + "?module" + "=", name, rev, hasFeatures, text);
    if printed == [] { LastPiece(""); } else { JoinRoundTrip(printed); }
  }

  /** YANG identifiers: not empty, and without the characters of the URI syntax. */
  predicate Identifiers(names: seq<string>) {
    forall i :: 0 <= i < |names| ==> names[i] != "" && Plain(names[i]) && ',' !in names[i]
  }

  /** What the client makes of what the server announces, if the server's buffer takes it. */
  function Received(ns: string, name: string, rev: string, features: seq<string>): Option<Parsed> {
    match Announced(ns, name, rev, features)
    case None => None
    case Some(uri) => Some(Parse(uri))
  }

  /**
   * For every module: the server overruns its buffer if and only if the module part, with the key if
   * there are features, does not fit; the client recovers the module with all its features if and
   * only if the whole URI fits; and it is told to enable the empty feature if and only if there are
   * features, the key fits, and the first feature does not.
   */
  lemma AnnouncedIsParsedIff(ns: string, name: string, rev: string, features: seq<string>)
    requires FreeOfKeys(ns) && Plain(name) && Plain(rev) && Identifiers(features)
    ensures var received := Received(ns, name, rev, features);
            var revision := if rev == "" then None else Some(rev);
            && (received == None <==> |ModulePart(ns, name, rev)| + (if features == [] then 0 else 10) >= BUF_LEN)
            && (received == Some(Module(name, revision, if features == [] then None else Some(features))) <==>
                  AllFit(ns, name, rev, features))
            && (received == Some(Module(name, revision, Some([""]))) <==>
                  features != [] && |ModulePart(ns, name, rev)| + 10 < BUF_LEN
                  && |ModulePart(ns, name, rev)| + 11 + |features[0]| >= BUF_LEN)
  {
    if Overruns(ns, name, rev, features) {
      FirstOverruns(ns, name, rev, features);
    } else {
      var count := Fitting(FeatureStart(ns, name, rev), features, 0);
      ModuleRoundTrip(ns, name, rev, features != [], features[..count]);
      NothingFitsIff(ns, name, rev, features, count);
      if features != [] {
        AllFitIff(ns, name, rev, features, count);
        assert |features[..count]| == count;
        assert count == |features| ==> features[..count] == features;
        assert count > 0 ==> features[..count][0] == features[0] != "";
      }
    }
  }

  /** A module with one long feature: the client is told to enable the feature "". */
  lemma EmptyFeatureIsAnnounced() returns (feature: string)
    ensures Identifiers([feature])
    ensures Received("urn:m", "m", "", [feature]) == Some(Module("m", None, Some([""])))
  {
    feature := seq(500, _ => 'f');
    assert |ModulePart("urn:m", "m", "")| == 14;
    AnnouncedIsParsedIff("urn:m", "m", "", [feature]);
  }

  /** A module with a long namespace and no features: the server writes past the end of its buffer. */
  lemma LongNamespaceOverruns() returns (ns: string)
    ensures FreeOfKeys(ns) && Received(ns, "m", "", []) == None
  {
    ns := seq(600, _ => 'n');
    KeysAreKeys();
    assert "" + ns == ns;
    FreeTail("", MODULE, ns);
    FreeTail("", REVISION, ns);
    FreeTail("", FEATURES, ns);
  }
}
