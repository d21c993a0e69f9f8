/** Handles of the port layer (lib/portlayer/exec/handle.go): a handle
    stages a change to one container's VM configuration until Commit
    applies it, and a process-wide registry finds handles by their key.

    The calls this file makes into code that is not part of this model are
    parameters: the container's own commit, the configuration encoder, the
    DNS lookup, the guest spec generator, the clock and the random source. */
module ExecHandle {
  import opened Wrappers

  /** Number of random bytes in a handle key. */
  const HandleLen: nat := 16
  /** Capacity of the handle registry. */
  const LruSize: nat := 1000
  /** The name Create resolves to reach the management network. */
  const ManagementHostName: string := "management.localhost"

  newtype byte = x: int | 0 <= x < 256

  /** The digits hex.EncodeToString writes. */
  const HexDigits: string := "0123456789abcdef"

  /** The errors of this file. */
  datatype Error =
    | SpecIsAlreadySet                           // "spec is already set" (SetSpec)
    | SpecAlreadySet                             // "spec already set" (Create)
    | NoIpFound(host: string)                    // "No IP found on <host>"
    | MultipleIpsFound(host: string, ips: seq<string>)  // "Multiple IPs found on <host>: <ips>"
    | Foreign(cause: string)                     // an error returned by a call outside this file

  // ---------------------------------------------------------------------
  // Handle keys

  /** hex.EncodeToString: two lower-case digits per byte, high nibble first. */
  function HexEncode(bytes: seq<byte>): (s: string)
    ensures |s| == 2 * |bytes|
  {
    if bytes == [] then []
    else [HexDigits[bytes[0] as int / 16], HexDigits[bytes[0] as int % 16]] + HexEncode(bytes[1..])
  }

  /** The value of one lower-case hex digit. */
  function HexValue(c: char): (v: Option<int>)
    ensures v.Some? ==> 0 <= v.value < 16
  {
    if '0' <= c <= '9' then Some(c as int - '0' as int)
    else if 'a' <= c <= 'f' then Some(c as int - 'a' as int + 10)
    else None
  }

  /** The inverse of HexEncode: None for an odd length or a non-digit. */
  function HexDecode(s: string): Option<seq<byte>>
  {
    if s == [] then Some([])
    else if |s| == 1 || HexValue(s[0]).None? || HexValue(s[1]).None? then None
    else match HexDecode(s[2..])
      case None => None
      case Some(rest) => Some([(HexValue(s[0]).value * 16 + HexValue(s[1]).value) as byte] + rest)
  }

  /** An encoded key holds hex digits only. */
  lemma {:induction false} HexEncodeDigits(bytes: seq<byte>)
    ensures forall i | 0 <= i < |HexEncode(bytes)| :: HexEncode(bytes)[i] in HexDigits
  {
    if bytes != [] {
      HexEncodeDigits(bytes[1..]);
      var s := HexEncode(bytes);
      assert s[2..] == HexEncode(bytes[1..]);
      forall i | 2 <= i < |s|
        ensures s[i] in HexDigits
      {
        assert s[i] == s[2..][i - 2];
      }
    }
  }

  /** Decoding an encoded key gives back its bytes. */
  lemma {:induction false} HexRoundTrip(bytes: seq<byte>)
    ensures HexDecode(HexEncode(bytes)) == Some(bytes)
  {
    if bytes != [] {
      var s := HexEncode(bytes);
      var b := bytes[0];
      HexByteRoundTrip(b);
      assert s[2..] == HexEncode(bytes[1..]);
      HexRoundTrip(bytes[1..]);
      HexDecodeStep(s);
      assert [b] + bytes[1..] == bytes;
    }
  }

  /** Decoding takes two digits at a time. */
  lemma HexDecodeStep(s: string)
    requires |s| >= 2 && HexValue(s[0]).Some? && HexValue(s[1]).Some? && HexDecode(s[2..]).Some?
    ensures HexDecode(s)
            == Some([(HexValue(s[0]).value * 16 + HexValue(s[1]).value) as byte] + HexDecode(s[2..]).value)
  {
  }

  /** One byte's two digits read back as that byte. */
  lemma HexByteRoundTrip(b: byte)
    ensures HexValue(HexDigits[b as int / 16]) == Some(b as int / 16)
    ensures HexValue(HexDigits[b as int % 16]) == Some(b as int % 16)
    ensures ((b as int / 16) * 16 + b as int % 16) as byte == b
  {
    HexDigitValue(b as int / 16);
    HexDigitValue(b as int % 16);
  }

  /** Each digit of HexDigits reads back as its position. */
  lemma HexDigitValue(d: int)
    requires 0 <= d < 16
    ensures HexValue(HexDigits[d]) == Some(d)
  {
    if d < 10 {
      assert HexDigits[d] == '0' + d as char by {
        assert HexDigits[..10] == "0123456789";
      }
    } else {
      assert HexDigits[d] == 'a' + (d - 10) as char by {
        assert HexDigits[10..] == "abcdef";
      }
    }
  }

  /** Different random bytes give different keys. */
  lemma HexEncodeInjective(a: seq<byte>, b: seq<byte>)
    requires HexEncode(a) == HexEncode(b)
    ensures a == b
  {
    HexRoundTrip(a);
    HexRoundTrip(b);
  }

  /** newHandleKey: the hex form of HandleLen random bytes, so a key has
      32 characters, all hex digits. The random bytes are a parameter. */
  function NewHandleKey(random: seq<byte>): (key: string)
    requires |random| == HandleLen
    ensures |key| == 2 * HandleLen
    ensures forall i | 0 <= i < |key| :: key[i] in HexDigits
    ensures HexDecode(key) == Some(random)
  {
    HexRoundTrip(random);
    HexEncodeDigits(random);
    HexEncode(random)
  }

  // ---------------------------------------------------------------------
  // The registry's cache: groupcache's lru.Cache with LruSize entries

  /** `s` without the element `k`. */
  function Without(s: seq<string>, k: string): (r: seq<string>)
    ensures forall x :: x in r <==> x in s && x != k
    ensures Distinct(s) ==> Distinct(r)
    ensures k in s && Distinct(s) ==> |r| == |s| - 1
    ensures k !in s ==> r == s
    ensures |r| <= |s|
  {
    if s == [] then []
    else if s[0] == k then Without(s[1..], k)
    else
      var r := Without(s[1..], k);
      assert Distinct(s) ==> s[0] !in s[1..];
      [s[0]] + r
  }

  predicate Distinct(s: seq<string>)
  {
    forall i, j | 0 <= i < j < |s| :: s[i] != s[j]
  }

  /** An LRU cache: the entries and their keys from least to most recently used. */
  datatype Lru<V> = Lru(entries: map<string, V>, recency: seq<string>)
  {
    /** The recency list names each entry once and the cache never holds
        more than LruSize entries. */
    ghost predicate Valid()
    {
      && |recency| <= LruSize
      && Distinct(recency)
      && (forall k :: k in entries <==> k in recency)
    }

    /** The value stored under `key`, without touching its recency. */
    function Get(key: string): Option<V>
    {
      if key in entries then Some(entries[key]) else None
    }

    /** lru.Add: store under `key` and make it most recent; a new key that
        overflows the cache evicts the least recently used entry. */
    function Add(key: string, v: V): (c: Lru<V>)
      ensures |c.recency| > 0 && c.recency[|c.recency| - 1] == key
      ensures forall k | k != key && k in c.entries :: c.Get(k) == Get(k)
      ensures c.entries.Keys <= entries.Keys + {key}
      ensures |c.recency| <= |recency| + 1
    {
      if key in entries then Lru(entries[key := v], Without(recency, key) + [key])
      else if |recency| + 1 > LruSize then
        Lru(entries[key := v] - {recency[0]}, recency[1..] + [key])
      else Lru(entries[key := v], recency + [key])
    }

    /** The recency change of a hit in lru.Get: the key becomes most recent. */
    function Touch(key: string): (c: Lru<V>)
      ensures c.entries == entries
      ensures key in entries ==> |c.recency| > 0 && c.recency[|c.recency| - 1] == key
    {
      if key in entries then Lru(entries, Without(recency, key) + [key]) else this
    }

    /** lru.Remove. */
    function Remove(key: string): (c: Lru<V>)
      ensures c.Get(key) == None
      ensures forall k | k != key :: c.Get(k) == Get(k)
    {
      Lru(entries - {key}, Without(recency, key))
    }
  }

  /** Adding keeps the cache valid and makes the new value retrievable; no
      other key changes its value, and the only key that can be lost is the
      least recently used one, and only when the cache was full. */
  lemma AddProperties<V>(c: Lru<V>, key: string, v: V)
    requires c.Valid()
    ensures c.Add(key, v).Valid()
    ensures c.Add(key, v).Get(key) == Some(v)
    ensures forall k | k != key && k in c.Add(key, v).entries :: c.Add(key, v).Get(k) == c.Get(k)
    ensures forall k | k != key && k in c.entries && k !in c.Add(key, v).entries ::
              key !in c.entries && |c.entries| == LruSize && k == c.recency[0]
    ensures c.Add(key, v).entries.Keys <= c.entries.Keys + {key}
  {
    var r := c.Add(key, v);
    if key in c.entries {
      assert Distinct(r.recency);
    } else if |c.recency| + 1 > LruSize {
      assert c.recency[0] != key;
      assert Distinct(r.recency);
      CardinalityOfKeys(c);
    } else {
      assert Distinct(r.recency);
    }
  }

  /** A valid cache has as many entries as its recency list has keys. */
  lemma CardinalityOfKeys<V>(c: Lru<V>)
    requires c.Valid()
    ensures |c.entries| == |c.recency|
  {
    DistinctCardinality(c.recency);
    assert c.entries.Keys == set k | k in c.recency;
  }

  /** A list of distinct keys has as many elements as its set of keys. */
  lemma {:induction false} DistinctCardinality(s: seq<string>)
    requires Distinct(s)
    ensures |set k | k in s| == |s|
  {
    if s != [] {
      DistinctCardinality(s[1..]);
      assert (set k | k in s) == (set k | k in s[1..]) + {s[0]};
      assert s[0] !in s[1..];
    }
  }

  /** Removing keeps the cache valid, forgets `key` and nothing else. */
  lemma RemoveProperties<V>(c: Lru<V>, key: string)
    requires c.Valid()
    ensures c.Remove(key).Valid()
    ensures c.Remove(key).Get(key) == None
    ensures forall k | k != key :: c.Remove(key).Get(k) == c.Get(k)
  {
  }

  /** A hit only reorders: the cache stays valid and the key is most recent. */
  lemma TouchProperties<V>(c: Lru<V>, key: string)
    requires c.Valid()
    ensures c.Touch(key).Valid()
    ensures key in c.entries ==> c.Touch(key).recency[|c.Touch(key).recency| - 1] == key
  {
  }

  /** One operation on the registry's cache. */
  datatype CacheOp<V> = AddOp(key: string, value: V) | GetOp(key: string) | RemoveOp(key: string)

  /** The cache after a sequence of operations. */
  function Replay<V>(c: Lru<V>, ops: seq<CacheOp<V>>): Lru<V>
    decreases |ops|
  {
    if ops == [] then c
    else
      var next := match ops[0]
        case AddOp(k, v) => c.Add(k, v)
        case GetOp(k) => c.Touch(k)
        case RemoveOp(k) => c.Remove(k);
      Replay(next, ops[1..])
  }

  /** A key that was never added is never found: starting from an empty
      cache, Get of a key no AddOp names returns None. */
  lemma {:induction false} NeverAddedNeverFound<V>(c: Lru<V>, ops: seq<CacheOp<V>>, key: string)
    requires c.Valid() && key !in c.entries
    requires forall i | 0 <= i < |ops| :: !(ops[i].AddOp? && ops[i].key == key)
    ensures Replay(c, ops).Get(key) == None
    decreases |ops|
  {
    if ops != [] {
      match ops[0]
      case AddOp(k, v) =>
        AddProperties(c, k, v);
        NeverAddedNeverFound(c.Add(k, v), ops[1..], key);
      case GetOp(k) =>
        TouchProperties(c, k);
        NeverAddedNeverFound(c.Touch(k), ops[1..], key);
      case RemoveOp(k) =>
        RemoveProperties(c, k);
        NeverAddedNeverFound(c.Remove(k), ops[1..], key);
    }
  }

  // ---------------------------------------------------------------------
  // Handles

  /** The guest configuration a handle carries (metadata.ExecutorConfig):
      only the fields this file reads or writes. */
  datatype ExecutorConfig = ExecutorConfig(id: string, name: string, created: string)

  /** The parameters of Create (ContainerCreateConfig). */
  datatype CreateConfig = CreateConfig(metadata: ExecutorConfig, parentImageId: string,
                                       imageStoreName: string, vchName: string)

  /** One key/value option of a VM's extra configuration. */
  datatype OptionValue = OptionValue(key: string, value: string)

  /** The container's state; its type is not part of this model. */
  type State = int

  /** A VM configuration spec; only its extra configuration is modelled. */
  class VmConfigSpec {
    var extraConfig: seq<OptionValue>

    /** An empty spec. */
    constructor Empty()
      ensures extraConfig == []
    {
      extraConfig := [];
    }
  }

  /** A container known to the port layer. */
  class Container {
    var execConfig: ExecutorConfig

    constructor (config: ExecutorConfig)
      ensures execConfig == config
    {
      execConfig := config;
    }
  }

  class Handle {
    var spec: VmConfigSpec?
    var execConfig: ExecutorConfig
    var container: Container
    var state: Option<State>
    const key: string
    var committed: bool

    /** The handle literal built by newHandle. */
    constructor (key: string, con: Container)
      ensures this.key == key && container == con && execConfig == con.execConfig
      ensures spec == null && state == None && !committed
    {
      this.key := key;
      committed := false;
      container := con;
      execConfig := con.execConfig;
      spec := null;
      state := None;
    }

    /** IsCommitted: whether a Commit of this handle has succeeded. */
    method IsCommitted() returns (c: bool)
      ensures c <==> committed
    {
      c := committed;
    }

    /** SetSpec: the spec is set at most once. A second non-nil spec is
        refused and a nil one ignored; a nil spec on an unset handle
        becomes a fresh empty spec. */
    method SetSpec(s: VmConfigSpec?) returns (err: Option<Error>)
      modifies this`spec
      ensures old(spec) != null ==> spec == old(spec)
      ensures old(spec) != null ==> err == if s != null then Some(SpecIsAlreadySet) else None
      ensures old(spec) == null ==> err == None && spec != null
      ensures old(spec) == null && s != null ==> spec == s
      ensures old(spec) == null && s == null ==> fresh(spec) && spec.extraConfig == []
    {
      if spec != null {
        if s != null {
          return Some(SpecIsAlreadySet);
        }
        return None;
      }

      var t := s;
      if t == null {
        t := new VmConfigSpec.Empty();
      }
      spec := t;
      return None;
    }

    /** Commit: a committed handle is left alone. Otherwise the handle gets
        a spec if it has none, the encoded configuration is appended to the
        spec's extra configuration, and the container commit decides the
        rest: on success the handle is committed and leaves the registry, on
        failure it stays uncommitted and registered. `encode` stands for the
        configuration encoder and `containerCommit` for Container.Commit's
        result. */
    method Commit(registry: HandleRegistry, encode: ExecutorConfig -> seq<OptionValue>,
                  containerCommit: Option<Error>)
      returns (err: Option<Error>)
      requires registry.Valid()
      modifies this, spec, registry
      ensures registry.Valid()
      ensures execConfig == old(execConfig) && container == old(container) && state == old(state)
      ensures old(committed) ==> err == None && committed && spec == old(spec)
      ensures old(committed) ==> registry.cache == old(registry.cache)
      ensures old(committed) && spec != null ==> spec.extraConfig == old(spec.extraConfig)
      ensures !old(committed) ==> spec != null
      ensures !old(committed) && old(spec) != null ==>
                spec == old(spec) && spec.extraConfig == old(spec.extraConfig) + encode(execConfig)
      ensures !old(committed) && old(spec) == null ==> fresh(spec) && spec.extraConfig == encode(execConfig)
      ensures !old(committed) ==> err == containerCommit && (committed <==> containerCommit == None)
      ensures !old(committed) ==>
                registry.cache == if containerCommit == None then old(registry.cache).Remove(key)
                                  else old(registry.cache)
    {
      if committed {
        return None;
      }

      var _ := SetSpec(null);
      spec.extraConfig := spec.extraConfig + encode(execConfig);

      if containerCommit != None {
        return containerCommit;
      }

      committed := true;
      registry.RemoveHandle(key);
      return None;
    }

    /** SetState: records the container state on the handle. */
    method SetState(s: State)
      modifies this`state
      ensures state == Some(s)
    {
      state := Some(s);
    }

    /** Create: a handle that already has a spec is refused untouched.
        Otherwise the metadata, stamped with the creation time `now`,
        replaces the handle's configuration; the management host must
        resolve to exactly one address (`lookup`), and the guest spec
        generator's result (`guest`) becomes the handle's spec. */
    method Create(config: CreateConfig, now: string, lookup: Result<seq<string>, Error>,
                  guest: Result<VmConfigSpec?, Error>)
      returns (err: Option<Error>)
      modifies this`execConfig, this`spec
      ensures old(spec) != null ==> err == Some(SpecAlreadySet)
      ensures old(spec) != null ==> execConfig == old(execConfig) && spec == old(spec)
      ensures old(spec) == null ==> execConfig == config.metadata.(created := now)
      ensures old(spec) == null && lookup.Err? ==> err == Some(lookup.error) && spec == null
      ensures old(spec) == null && lookup.Ok? && |lookup.value| == 0 ==>
                err == Some(NoIpFound(ManagementHostName)) && spec == null
      ensures old(spec) == null && lookup.Ok? && |lookup.value| > 1 ==>
                err == Some(MultipleIpsFound(ManagementHostName, lookup.value)) && spec == null
      ensures old(spec) == null && lookup.Ok? && |lookup.value| == 1 && guest.Err? ==>
                err == Some(guest.error) && spec == null
      ensures old(spec) == null && lookup.Ok? && |lookup.value| == 1 && guest.Ok? ==>
                err == None && spec != null && (guest.value != null ==> spec == guest.value)
      ensures old(spec) == null && lookup.Ok? && |lookup.value| == 1 && guest.Ok? && guest.value == null ==>
                fresh(spec) && spec.extraConfig == []
    {
      if spec != null {
        return Some(SpecAlreadySet);
      }

      execConfig := config.metadata.(created := now);

      if lookup.Err? {
        return Some(lookup.error);
      }
      var ips := lookup.value;
      if |ips| == 0 {
        return Some(NoIpFound(ManagementHostName));
      }
      if |ips| > 1 {
        return Some(MultipleIpsFound(ManagementHostName, ips));
      }

      if guest.Err? {
        return Some(guest.error);
      }
      var _ := SetSpec(guest.value);
      return None;
    }
  }

  // ---------------------------------------------------------------------
  // The registry

  /** The package's handle registry: the `handles` cache. */
  class HandleRegistry {
    var cache: Lru<Handle>

    ghost predicate Valid()
      reads this
    {
      cache.Valid()
    }

    /** init: an empty cache of LruSize entries. */
    constructor ()
      ensures Valid() && cache == Lru(map[], [])
    {
      cache := Lru(map[], []);
    }

    /** newHandle: a fresh uncommitted handle for `con`, keyed by the hex
        form of `random`, registered under that key. */
    method NewHandle(con: Container, random: seq<byte>) returns (h: Handle)
      requires Valid() && |random| == HandleLen
      modifies this
      ensures Valid() && fresh(h)
      ensures h.key == NewHandleKey(random) && |h.key| == 2 * HandleLen
      ensures !h.committed && h.container == con && h.execConfig == con.execConfig
      ensures h.spec == null && h.state == None
      ensures cache == old(cache).Add(h.key, h)
      ensures cache.Get(h.key) == Some(h)
    {
      h := new Handle(NewHandleKey(random), con);
      AddProperties(cache, h.key, h);
      cache := cache.Add(h.key, h);
    }

    /** GetHandle: the handle registered under `key`, or null. */
    method GetHandle(key: string) returns (h: Handle?)
      requires Valid()
      modifies this
      ensures Valid()
      ensures h == match old(cache).Get(key) case Some(x) => x case None => null
      ensures cache == old(cache).Touch(key)
    {
      h := if key in cache.entries then cache.entries[key] else null;
      TouchProperties(cache, key);
      cache := cache.Touch(key);
    }

    /** removeHandle: forgets the handle registered under `key`. */
    method RemoveHandle(key: string)
      requires Valid()
      modifies this
      ensures Valid()
      ensures cache == old(cache).Remove(key)
      ensures cache.Get(key) == None
    {
      RemoveProperties(cache, key);
      cache := cache.Remove(key);
    }
  }

  // ---------------------------------------------------------------------
  // A client: what callers can conclude from the contracts alone

  /** A handle is found while its commit fails, is gone once the commit
      succeeds, and a further commit is a no-op; its spec is set once. */
  method CommitLifecycle(random: seq<byte>, encode: ExecutorConfig -> seq<OptionValue>)
    requires |random| == HandleLen
  {
    var registry := new HandleRegistry();
    var con := new Container(ExecutorConfig("c1", "web", ""));
    var h := registry.NewHandle(con, random);
    assert !h.committed && h.execConfig == con.execConfig;
    var found := registry.GetHandle(h.key);
    assert found == h;

    var err := h.Commit(registry, encode, Some(Foreign("container commit failed")));
    assert err == Some(Foreign("container commit failed")) && !h.committed && h.spec != null;
    found := registry.GetHandle(h.key);
    assert found == h;

    err := h.Commit(registry, encode, None);
    assert err == None && h.committed;
    found := registry.GetHandle(h.key);
    assert found == null;

    err := h.Commit(registry, encode, Some(Foreign("never reached")));
    assert err == None && h.committed;

    var other := new VmConfigSpec.Empty();
    var setErr := h.SetSpec(other);
    assert setErr == Some(SpecIsAlreadySet) && h.spec != other;
    setErr := h.SetSpec(null);
    assert setErr == None;
  }
}
