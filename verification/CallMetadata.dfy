/** Call metadata: a multimap from lower-case keys to strings or buffers, and its
    translation to and from HTTP/2 headers. */
module CallMetadata {
  import opened Options
  import opened Wire
  import Base64

  datatype Value = Text(text: string) | Binary(bytes: seq<byte>)

  type Entries = map<string, seq<Value>>

  /** The ways an operation throws. NotAnArray is the TypeError for pushing onto what a
      plain object inherits under the key. */
  datatype Error = IllegalKey | WrongKind | IllegalValue | NotAnArray

  datatype Outcome<T> = Ok(value: T) | Throws(error: Error)

  // ---- keys and values ----

  predicate LegalKeyChar(c: char)
  {
    '0' <= c <= '9' || 'a' <= c <= 'z' || c == '_' || c == '.' || c == '-'
  }

  predicate LegalKey(key: string)
  {
    key != "" && forall i :: 0 <= i < |key| ==> LegalKeyChar(key[i])
  }

  predicate LegalText(text: string)
  {
    text != "" && forall i :: 0 <= i < |text| ==> ' ' <= text[i] <= '~'
  }

  predicate IsBinaryKey(key: string)
  {
    |key| >= 4 && key[|key| - 4..] == "-bin"
  }

  /** String.prototype.toLowerCase, as far as it can yield a legal key: the Kelvin sign is
      the one character outside ASCII with a lower case in ASCII; every other character
      outside ASCII stays outside and is rejected by LegalKey either way. */
  function Lower(c: char): (r: char)
  {
    if 'A' <= c <= 'Z' then (c as int + 32) as char
    else if c == '\U{212a}' then 'k'
    else c
  }

  function NormalizeKey(key: string): (r: string)
    ensures |r| == |key|
    ensures forall i :: 0 <= i < |r| ==> r[i] == Lower(key[i])
  {
    seq(|key|, i requires 0 <= i < |key| => Lower(key[i]))
  }

  lemma NormalizeLegal(key: string)
    requires LegalKey(key)
    ensures NormalizeKey(key) == key
  {}

  /** What the predicates on characters and keys accept. */
  lemma KeysMean(c: char, key: string, name: string)
    ensures LegalKeyChar(c) <==> c in "0123456789abcdefghijklmnopqrstuvwxyz_.-"
    ensures LegalText([c]) <==> 32 <= c as int <= 126
    ensures IsBinaryKey(name + "-bin")
    ensures IsBinaryKey(key) ==> key == key[..|key| - 4] + "-bin"
  {
    assert (name + "-bin")[|name|..] == "-bin";
    assert [c][0] == c;
  }

  /** Upper-case letters and the Kelvin sign become the lower-case ones, the rest stays. */
  lemma LowerMeans(i: nat, c: char)
    requires i < 26
    ensures Lower("ABCDEFGHIJKLMNOPQRSTUVWXYZ"[i]) == "abcdefghijklmnopqrstuvwxyz"[i]
    ensures LegalKeyChar(c) ==> Lower(c) == c
    ensures Lower('\U{212a}') == 'k' && (c as int >= 128 && c != '\U{212a}' ==> Lower(c) == c)
    ensures !('A' <= Lower(c) <= 'Z')
  {}

  /** validate(key, value), on a normalized key. */
  function Validate(key: string, value: Value): (e: Option<Error>)
  {
    if !LegalKey(key) then Some(IllegalKey)
    else if IsBinaryKey(key) then (if value.Binary? then None else Some(WrongKind))
    else if value.Binary? then Some(WrongKind)
    else if !LegalText(value.text) then Some(IllegalValue)
    else None
  }

  /** Which error is thrown: the key comes first, then the kind, then the characters. */
  lemma ValidateMeans(key: string, value: Value)
    ensures Validate(key, value) == Some(IllegalKey) <==> !LegalKey(key)
    ensures Validate(key, value) == Some(WrongKind) <==> LegalKey(key) && (value.Binary? != IsBinaryKey(key))
    ensures Validate(key, value) == Some(IllegalValue) <==>
      LegalKey(key) && !IsBinaryKey(key) && value.Text? && !LegalText(value.text)
    ensures Validate(key, value) != Some(NotAnArray)
  {}

  /** Legal keys that a plain object inherits from Object.prototype. */
  predicate Inherited(key: string)
  {
    key == "constructor" || key == "__proto__"
  }

  /** What every reachable Metadata satisfies. */
  ghost predicate Legal(m: Entries)
  {
    forall k :: k in m ==>
      && m[k] != [] && k != "__proto__"
      && forall i :: 0 <= i < |m[k]| ==> Validate(k, m[k][i]) == None
  }

  /** In other words: lower-case legal keys, non-empty lists, buffers under the keys that
      end in -bin and printable strings under the others. */
  lemma LegalMeans(m: Entries)
    ensures Legal(m) <==> forall k :: k in m ==>
      && LegalKey(k) && NormalizeKey(k) == k && m[k] != [] && k != "__proto__"
      && (forall i :: 0 <= i < |m[k]| ==>
            && (m[k][i].Binary? <==> IsBinaryKey(k))
            && (m[k][i].Text? ==> LegalText(m[k][i].text)))
  {
    hide LegalText, IsBinaryKey;
    forall k | LegalKey(k) ensures NormalizeKey(k) == k {
      NormalizeLegal(k);
    }
    forall k | Legal(m) && k in m ensures LegalKey(k) {
      assert Validate(k, m[k][0]) == None;
    }
  }

  // ---- the operations on values ----

  function AddOne(m: Entries, key: string, value: Value): (r: Outcome<Entries>)
  {
    var k := NormalizeKey(key);
    var e := Validate(k, value);
    if e.Some? then Throws(e.value)
    else if k in m then Ok(m[k := m[k] + [value]])
    else if Inherited(k) then Throws(NotAnArray)
    else Ok(m[k := [value]])
  }

  function AddAll(m: Entries, key: string, values: seq<Value>): (r: Outcome<Entries>)
  {
    if values == [] then Ok(m)
    else
      match AddAll(m, key, values[..|values| - 1])
      case Ok(m') => AddOne(m', key, values[|values| - 1])
      case Throws(e) => Throws(e)
  }

  function Values(m: Entries, k: string): (r: seq<Value>)
  {
    if k in m then m[k] else []
  }

  /** Per key, the first map's values and then the second's. */
  function Merged(a: Entries, b: Entries): (r: Entries)
    ensures r.Keys == a.Keys + b.Keys
    ensures forall k :: k in r ==> r[k] == Values(a, k) + Values(b, k)
  {
    map k | k in a.Keys + b.Keys :: Values(a, k) + Values(b, k)
  }

  /** Merging throws when it would append to the inherited `constructor`. */
  predicate CanMerge(a: Entries, b: Entries)
  {
    "constructor" in b ==> "constructor" in a
  }

  lemma MergedNeutral(a: Entries)
    ensures Merged(a, map[]) == a && Merged(map[], a) == a
  {
    forall k | k in a ensures Merged(a, map[])[k] == a[k] && Merged(map[], a)[k] == a[k] {
      assert a[k] + [] == a[k] && [] + a[k] == a[k];
    }
  }

  lemma MergedStep(a: Entries, b: Entries, k: string, values: seq<Value>)
    requires k !in b
    ensures Merged(a, b[k := values]) == Merged(a, b)[k := Values(Merged(a, b), k) + values]
  {
    var r, r' := Merged(a, b[k := values]), Merged(a, b)[k := Values(Merged(a, b), k) + values];
    assert r.Keys == r'.Keys;
    assert Values(a, k) + [] == Values(a, k);
    forall x | x in r ensures r[x] == r'[x] {
      assert x != k ==> Values(b[k := values], x) == Values(b, x);
    }
  }

  lemma MergedLegal(a: Entries, b: Entries)
    requires Legal(a) && Legal(b)
    ensures Legal(Merged(a, b))
  {
    hide Validate;
    var m := Merged(a, b);
    forall k, i | k in m && 0 <= i < |m[k]| ensures Validate(k, m[k][i]) == None {
      if i < |Values(a, k)| {
        assert m[k][i] == a[k][i];
      } else {
        assert m[k][i] == b[k][i - |Values(a, k)|];
      }
    }
  }

  ghost predicate IsPart(part: Entries, m: Entries)
  {
    forall k :: k in part ==> k in m && part[k] == m[k]
  }

  lemma LegalPart(part: Entries, m: Entries)
    requires Legal(m) && IsPart(part, m)
    ensures Legal(part)
  {}

  /** Merging `source` into `base`, with `keys` still to do and `done` merged so far. */
  ghost predicate MergeSoFar(base: Entries, source: Entries, keys: set<string>, done: Entries, now: Entries)
  {
    && keys <= source.Keys && done.Keys == source.Keys - keys && IsPart(done, source)
    && now == Merged(base, done) && CanMerge(base, done)
  }

  lemma MergeStart(base: Entries, source: Entries)
    ensures MergeSoFar(base, source, source.Keys, map[], base)
  {
    MergedNeutral(base);
  }

  lemma MergeNext(base: Entries, source: Entries, keys: set<string>, done: Entries, now: Entries, key: string)
    requires MergeSoFar(base, source, keys, done, now) && key in keys
    requires key == "constructor" ==> key in now
    ensures key in source
    ensures MergeSoFar(base, source, keys - {key}, done[key := source[key]],
                       now[key := Values(now, key) + source[key]])
  {
    MergedStep(base, done, key, source[key]);
  }

  lemma MergeOver(base: Entries, source: Entries, keys: set<string>, done: Entries, now: Entries)
    requires MergeSoFar(base, source, keys, done, now) && Legal(base) && Legal(source)
    ensures Legal(now) && IsPart(done, source) && now == Merged(base, done)
    ensures keys == {} ==> done == source && CanMerge(base, source)
    ensures "constructor" in keys && "constructor" !in now ==> !CanMerge(base, source) && "constructor" !in done
  {
    LegalPart(done, source);
    MergedLegal(base, done);
  }

  // ---- HTTP/2 headers ----

  datatype HeaderValue = One(text: string) | Many(texts: seq<string>)

  /** An own property of a headers object, in its insertion order. */
  datatype Header = Header(key: string, value: HeaderValue)

  function ToHeaderText(v: Value): (s: string)
  {
    if v.Binary? then Base64.Encode(v.bytes) else v.text
  }

  function ToHeader(m: Entries, k: string): (h: Header)
    requires k in m
  {
    Header(k, Many(seq(|m[k]|, i requires 0 <= i < |m[k]| => ToHeaderText(m[k][i]))))
  }

  function FromHeaderText(key: string, text: string): (v: Value)
  {
    if IsBinaryKey(key) then Binary(Base64.Decode(text)) else Text(text)
  }

  function HeaderValues(h: Header): (r: seq<Value>)
  {
    match h.value
    case One(text) => [FromHeaderText(h.key, text)]
    case Many(texts) => seq(|texts|, i requires 0 <= i < |texts| => FromHeaderText(h.key, texts[i]))
  }

  /** A header with a single value counts as a list of one; binary values go through base64,
      the others as they are. */
  lemma HeadersMean(m: Entries, k: string, i: nat, text: string)
    requires k in m && i < |m[k]|
    ensures ToHeader(m, k).key == k && ToHeader(m, k).value.Many? && |ToHeader(m, k).value.texts| == |m[k]|
    ensures ToHeader(m, k).value.texts[i] ==
      if m[k][i].Binary? then Base64.Encode(m[k][i].bytes) else m[k][i].text
    ensures HeaderValues(Header(k, One(text))) == HeaderValues(Header(k, Many([text])))
    ensures HeaderValues(Header(k, One(text))) == [if IsBinaryKey(k) then Binary(Base64.Decode(text)) else Text(text)]
  {}

  function FromHeaders(headers: seq<Header>): (r: Outcome<Entries>)
  {
    if headers == [] then Ok(map[])
    else
      var last := headers[|headers| - 1];
      match FromHeaders(headers[..|headers| - 1])
      case Ok(m) => AddAll(m, last.key, HeaderValues(last))
      case Throws(e) => Throws(e)
  }

  /** The headers are those of m, one per key, in some order. */
  ghost predicate HeadersOf(headers: seq<Header>, m: Entries)
  {
    && |headers| == |m|
    && (forall i :: 0 <= i < |headers| ==> headers[i].key in m && headers[i] == ToHeader(m, headers[i].key))
    && (forall i, j :: 0 <= i < j < |headers| ==> headers[i].key != headers[j].key)
  }

  lemma HeaderValuesBack(m: Entries, k: string)
    requires k in m && Legal(m)
    ensures HeaderValues(ToHeader(m, k)) == m[k]
  {
    var h := ToHeader(m, k);
    assert |HeaderValues(h)| == |m[k]|;
    forall i | 0 <= i < |m[k]| ensures HeaderValues(h)[i] == m[k][i] {
      assert Validate(k, m[k][i]) == None;
      if m[k][i].Binary? { Base64.DecodeEncode(m[k][i].bytes); }
    }
  }

  /** On a key and value that pass validation, add appends, or starts a list. */
  lemma AddOneValid(m: Entries, k: string, v: Value)
    requires Validate(k, v) == None
    ensures AddOne(m, k, v) ==
      if k !in m && Inherited(k) then Throws(NotAnArray) else Ok(m[k := Values(m, k) + [v]])
  {
    NormalizeLegal(k);
    assert [] + [v] == [v];
  }

  lemma {:induction false} AddAllFresh(m: Entries, k: string, values: seq<Value>)
    requires k !in m && values != []
    requires forall i :: 0 <= i < |values| ==> Validate(k, values[i]) == None
    ensures AddAll(m, k, values) == if Inherited(k) then Throws(NotAnArray) else Ok(m[k := values])
  {
    hide Validate, AddOne, Inherited;
    var n := |values| - 1;
    assert values[..n] + [values[n]] == values;
    if n == 0 {
      AddOneValid(m, k, values[n]);
    } else {
      AddAllFresh(m, k, values[..n]);
      var m' := m[k := values[..n]];
      AddOneValid(m', k, values[n]);
      assert m'[k := Values(m', k) + [values[n]]] == m[k := values];
    }
  }

  /** Headers whose keys differ in case only add up, in their order. */
  lemma HeadersAddUp(first: Header, second: Header, k: string, v: Value, w: Value)
    requires NormalizeKey(first.key) == k == NormalizeKey(second.key) && !Inherited(k)
    requires HeaderValues(first) == [v] && HeaderValues(second) == [w]
    requires Validate(k, v) == None && Validate(k, w) == None
    ensures FromHeaders([first, second]) == Ok(map[k := [v, w]])
  {
    hide Validate, HeaderValues, Inherited;
    assert [first, second][..1] == [first] && [first][..0] == [];
    assert [v][..0] == [] && [w][..0] == [];
    assert FromHeaders([first]) == AddAll(map[], first.key, [v]) == Ok(map[k := [v]]);
    assert [v] + [w] == [v, w];
    assert map[k := [v]][k := [v, w]] == map[k := [v, w]];
    assert AddAll(map[k := [v]], second.key, [w]) == Ok(map[k := [v, w]]);
  }

  lemma HeadersOfInit(m: Entries, headers: seq<Header>)
    requires HeadersOf(headers, m) && headers != []
    ensures HeadersOf(headers[..|headers| - 1], m - {headers[|headers| - 1].key})
  {
    var k, init := headers[|headers| - 1].key, headers[..|headers| - 1];
    var m' := m - {k};
    assert m'.Keys == m.Keys - {k};
    assert forall i :: 0 <= i < |init| ==> init[i] == headers[i] && init[i] == ToHeader(m', init[i].key);
  }

  /** fromHttp2Headers undoes toHttp2Headers, whatever the order of the keys, if and only
      if no key is `constructor`. */
  lemma {:induction false} HeadersRoundTrip(m: Entries, headers: seq<Header>)
    requires Legal(m) && HeadersOf(headers, m)
    ensures FromHeaders(headers) == if "constructor" in m then Throws(NotAnArray) else Ok(m)
    decreases |headers|
  {
    hide Validate, AddAll, ToHeader, HeaderValues;
    if headers == [] {
      assert m == map[];
    } else {
      var last := headers[|headers| - 1];
      var k, init, m' := last.key, headers[..|headers| - 1], m - {last.key};
      HeadersOfInit(m, headers);
      HeadersRoundTrip(m', init);
      HeaderValuesBack(m, k);
      AddAllFresh(m', k, m[k]);
      assert m'[k := m[k]] == m;
    }
  }

  /** The failing family is not empty: a call of set makes such a Metadata. */
  lemma ConstructorBreaksRoundTrip(v: string)
    requires LegalText(v)
    ensures var m: Entries := map["constructor" := [Text(v)]];
      Legal(m) && HeadersOf([ToHeader(m, "constructor")], m)
      && FromHeaders([ToHeader(m, "constructor")]) == Throws(NotAnArray)
  {
    var m: Entries := map["constructor" := [Text(v)]];
    assert !IsBinaryKey("constructor") by { assert "constructor"[7..] == "ctor"; }
    assert LegalKey("constructor");
    HeadersRoundTrip(m, [ToHeader(m, "constructor")]);
  }

  class Metadata {
    var internalRepr: Entries

    ghost predicate Valid()
      reads this
    {
      Legal(internalRepr)
    }

    constructor ()
      ensures Valid() && internalRepr == map[]
    {
      internalRepr := map[];
    }

    /** Assigning to `__proto__` replaces the object's prototype and adds no own key. */
    method Set(key: string, value: Value) returns (thrown: Option<Error>)
      requires Valid()
      modifies this
      ensures Valid()
      ensures var k := NormalizeKey(key);
        && thrown == Validate(k, value)
        && internalRepr == if thrown.Some? || k == "__proto__" then old(internalRepr)
                           else old(internalRepr)[k := [value]]
    {
      var k := NormalizeKey(key);
      thrown := Validate(k, value);
      if thrown.Some? { return; }
      if k != "__proto__" {
        internalRepr := internalRepr[k := [value]];
      }
    }

    method Add(key: string, value: Value) returns (thrown: Option<Error>)
      requires Valid()
      modifies this
      ensures Valid()
      ensures match AddOne(old(internalRepr), key, value)
        case Ok(m) => thrown.None? && internalRepr == m
        case Throws(e) => thrown == Some(e) && internalRepr == old(internalRepr)
    {
      var k := NormalizeKey(key);
      thrown := Validate(k, value);
      if thrown.Some? { return; }
      if k in internalRepr {
        internalRepr := internalRepr[k := internalRepr[k] + [value]];
      } else if Inherited(k) {
        return Some(NotAnArray);
      } else {
        internalRepr := internalRepr[k := [value]];
      }
    }

    method Remove(key: string) returns (thrown: Option<Error>)
      requires Valid()
      modifies this
      ensures Valid()
      ensures var k := NormalizeKey(key);
        && thrown == (if LegalKey(k) then None else Some(IllegalKey))
        && internalRepr == old(internalRepr) - (if thrown.None? then {k} else {})
    {
      var k := NormalizeKey(key);
      if !LegalKey(k) { return Some(IllegalKey); }
      if k in internalRepr {
        internalRepr := internalRepr - {k};
      }
      return None;
    }

    method Get(key: string) returns (r: Outcome<seq<Value>>)
      requires Valid()
      ensures var k := NormalizeKey(key);
        r == if LegalKey(k) then Ok(Values(internalRepr, k)) else Throws(IllegalKey)
    {
      var k := NormalizeKey(key);
      if !LegalKey(k) { return Throws(IllegalKey); }
      return Ok(if k in internalRepr then internalRepr[k] else []);
    }

    method Clone() returns (copy: Metadata)
      requires Valid()
      ensures fresh(copy) && copy.Valid() && copy.internalRepr == internalRepr
    {
      copy := new Metadata();
      copy.internalRepr := internalRepr;
    }

    /** The keys of `other` come in some order. A failure stops the loop half way: `done`
        is the part of `other` that was merged. */
    method Merge(other: Metadata) returns (thrown: Option<Error>, ghost done: Entries)
      requires Valid() && other.Valid()
      modifies this
      ensures Valid()
      ensures thrown == old(if CanMerge(internalRepr, other.internalRepr) then None else Some(NotAnArray))
      ensures thrown.Some? <==> "constructor" in old(other.internalRepr) && "constructor" !in old(internalRepr)
      ensures internalRepr == Merged(old(internalRepr), done)
      ensures thrown.None? ==> done == old(other.internalRepr)
      ensures thrown.Some? ==> "constructor" !in done && IsPart(done, old(other.internalRepr))
    {
      hide MergeSoFar, Merged, Legal, IsPart;
      var source := other.internalRepr;
      ghost var base := internalRepr;
      var keys := source.Keys;
      done := map[];
      MergeStart(base, source);
      while keys != {}
        invariant MergeSoFar(base, source, keys, done, internalRepr)
        decreases |keys|
      {
        var key :| key in keys;
        if key == "constructor" && key !in internalRepr {
          MergeOver(base, source, keys, done, internalRepr);
          return Some(NotAnArray), done;
        }
        MergeNext(base, source, keys, done, internalRepr, key);
        internalRepr := internalRepr[key := Values(internalRepr, key) + source[key]];
        keys := keys - {key};
        done := done[key := source[key]];
      }
      MergeOver(base, source, keys, done, internalRepr);
      thrown := None;
    }

    method ToHttp2Headers() returns (headers: seq<Header>)
      requires Valid()
      ensures HeadersOf(headers, internalRepr)
    {
      headers := [];
      var keys := internalRepr.Keys;
      while keys != {}
        invariant keys <= internalRepr.Keys
        invariant |headers| + |keys| == |internalRepr|
        invariant forall i :: 0 <= i < |headers| ==>
          headers[i].key in internalRepr && headers[i].key !in keys &&
          headers[i] == ToHeader(internalRepr, headers[i].key)
        invariant forall i, j :: 0 <= i < j < |headers| ==> headers[i].key != headers[j].key
        decreases |keys|
      {
        var key :| key in keys;
        headers := headers + [ToHeader(internalRepr, key)];
        keys := keys - {key};
      }
    }

    /** Builds by repeated add; the first add that throws ends it. */
    static method FromHttp2Headers(headers: seq<Header>) returns (result: Metadata, thrown: Option<Error>)
      ensures fresh(result) && result.Valid()
      ensures match FromHeaders(headers)
        case Ok(m) => thrown.None? && result.internalRepr == m
        case Throws(e) => thrown == Some(e)
    {
      hide AddOne, HeaderValues, Legal;
      result := new Metadata();
      for i := 0 to |headers|
        invariant fresh(result) && result.Valid()
        invariant FromHeaders(headers[..i]) == Ok(result.internalRepr)
      {
        assert headers[..i + 1][..i] == headers[..i];
        var values := HeaderValues(headers[i]);
        ghost var before := result.internalRepr;
        for j := 0 to |values|
          invariant fresh(result) && result.Valid()
          invariant AddAll(before, headers[i].key, values[..j]) == Ok(result.internalRepr)
        {
          assert values[..j + 1][..j] == values[..j];
          thrown := result.Add(headers[i].key, values[j]);
          if thrown.Some? {
            AddAllThrows(before, headers[i].key, values, j + 1);
            FromHeadersThrows(headers, i + 1);
            return;
          }
        }
        assert values[..|values|] == values;
      }
      assert headers[..|headers|] == headers;
      thrown := None;
    }
  }

  lemma {:induction false} AddAllThrows(m: Entries, k: string, values: seq<Value>, n: nat)
    requires n <= |values| && AddAll(m, k, values[..n]).Throws?
    ensures AddAll(m, k, values) == AddAll(m, k, values[..n])
    decreases |values|
  {
    if n == |values| {
      assert values[..n] == values;
    } else {
      var init := values[..|values| - 1];
      assert init[..n] == values[..n];
      AddAllThrows(m, k, init, n);
    }
  }

  lemma {:induction false} FromHeadersThrows(headers: seq<Header>, n: nat)
    requires n <= |headers| && FromHeaders(headers[..n]).Throws?
    ensures FromHeaders(headers) == FromHeaders(headers[..n])
    decreases |headers|
  {
    if n == |headers| {
      assert headers[..n] == headers;
    } else {
      var init := headers[..|headers| - 1];
      assert init[..n] == headers[..n];
      FromHeadersThrows(init, n);
    }
  }
}
