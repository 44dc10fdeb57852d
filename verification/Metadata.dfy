/** The structural and encoded-size limits on event metadata: an explicit-stack traversal and a
  byte counter fed by the encoder, against a recursive reading of the limits. */
module Metadata {
  import opened Json
  import opened Utf8

  const MAX_METADATA_BYTES: nat := 65_536
  const MAX_CONTAINER_ITEMS: nat := 1_024
  const MAX_DEPTH: nat := 32
  const MAX_KEY_CHARS: nat := 256
  const MAX_NODES: nat := 16_384
  const MAX_STRING_CHARS: nat := 65_536

  /** The greatest `usize`: 32 bits in the WebAssembly build, 64 bits elsewhere. */
  predicate WordMax(word: nat) { word == 0xFFFF_FFFF || word == 0xFFFF_FFFF_FFFF_FFFF }

  // ---- The recursive reading ----

  function Children(v: Value): seq<Value> {
    match v
    case Array(items) => items
    case Object(members) => seq(|members|, i requires 0 <= i < |members| => members[i].value)
    case _ => []
  }

  function Nodes(v: Value): (n: nat)
    ensures n >= 1
    decreases v, 1
  {
    match v
    case Array(items) => 1 + ItemsNodes(items)
    case Object(members) => 1 + MembersNodes(members)
    case _ => 1
  }

  function ItemsNodes(items: seq<Value>): nat
    decreases items, 0
  {
    if items == [] then 0 else Nodes(items[0]) + ItemsNodes(items[1..])
  }

  function MembersNodes(members: seq<Member>): nat
    decreases members, 0
  {
    if members == [] then 0 else Nodes(members[0].value) + MembersNodes(members[1..])
  }

  /** Every node below `v` lies within `room` levels. */
  predicate DepthWithin(v: Value, room: int)
    decreases v, 1
  {
    && room >= 0
    && match v
       case Array(items) => ItemsDepthWithin(items, room - 1)
       case Object(members) => MembersDepthWithin(members, room - 1)
       case _ => true
  }

  predicate ItemsDepthWithin(items: seq<Value>, room: int)
    decreases items, 0
  {
    items == [] || (DepthWithin(items[0], room) && ItemsDepthWithin(items[1..], room))
  }

  predicate MembersDepthWithin(members: seq<Member>, room: int)
    decreases members, 0
  {
    members == [] || (DepthWithin(members[0].value, room) && MembersDepthWithin(members[1..], room))
  }

  predicate KeysWithin(members: seq<Member>) {
    forall i :: 0 <= i < |members| ==> |members[i].key| <= MAX_KEY_CHARS
  }

  /** Every container, key and string, at every level, is within its limit. */
  predicate SizesWithin(v: Value)
    decreases v, 1
  {
    match v
    case Array(items) => |items| <= MAX_CONTAINER_ITEMS && ItemsSizesWithin(items)
    case Object(members) => |members| <= MAX_CONTAINER_ITEMS && KeysWithin(members) && MembersSizesWithin(members)
    case String(s) => |s| <= MAX_STRING_CHARS
    case _ => true
  }

  predicate ItemsSizesWithin(items: seq<Value>)
    decreases items, 0
  {
    items == [] || (SizesWithin(items[0]) && ItemsSizesWithin(items[1..]))
  }

  predicate MembersSizesWithin(members: seq<Member>)
    decreases members, 0
  {
    members == [] || (SizesWithin(members[0].value) && MembersSizesWithin(members[1..]))
  }

  predicate StructureWithin(v: Value) {
    Nodes(v) <= MAX_NODES && DepthWithin(v, MAX_DEPTH) && SizesWithin(v)
  }

  predicate WithinWireBounds(v: Value) {
    StructureWithin(v) && Portable(v) && EncodedBytes(v) <= MAX_METADATA_BYTES
  }

  // ---- The traversal ----

  datatype Pending = Pending(value: Value, depth: nat)

  function PendingNodes(pending: seq<Pending>): nat {
    if pending == [] then 0 else Nodes(pending[0].value) + PendingNodes(pending[1..])
  }

  predicate Fits(p: Pending) {
    DepthWithin(p.value, MAX_DEPTH - p.depth) && SizesWithin(p.value)
  }

  predicate AllFit(pending: seq<Pending>) {
    pending == [] || (Fits(pending[0]) && AllFit(pending[1..]))
  }

  function Enter(values: seq<Value>, depth: nat): seq<Pending> {
    seq(|values|, i requires 0 <= i < |values| => Pending(values[i], depth))
  }

  lemma {:induction false} PendingConcat(a: seq<Pending>, b: seq<Pending>)
    ensures PendingNodes(a + b) == PendingNodes(a) + PendingNodes(b)
    ensures AllFit(a + b) <==> AllFit(a) && AllFit(b)
  {
    if a == [] {
      assert a + b == b;
    } else {
      assert (a + b)[1..] == a[1..] + b;
      PendingConcat(a[1..], b);
    }
  }

  lemma {:induction false} EnterItems(items: seq<Value>, depth: nat)
    ensures PendingNodes(Enter(items, depth)) == ItemsNodes(items)
    ensures AllFit(Enter(items, depth)) <==> ItemsDepthWithin(items, MAX_DEPTH - depth) && ItemsSizesWithin(items)
  {
    if items != [] {
      assert Enter(items, depth)[1..] == Enter(items[1..], depth);
      EnterItems(items[1..], depth);
    }
  }

  lemma {:induction false} EnterMembers(members: seq<Member>, depth: nat)
    ensures PendingNodes(Enter(Children(Object(members)), depth)) == MembersNodes(members)
    ensures AllFit(Enter(Children(Object(members)), depth))
            <==> MembersDepthWithin(members, MAX_DEPTH - depth) && MembersSizesWithin(members)
  {
    if members != [] {
      assert Children(Object(members))[1..] == Children(Object(members[1..]));
      assert Enter(Children(Object(members)), depth)[1..] == Enter(Children(Object(members))[1..], depth);
      EnterMembers(members[1..], depth);
    }
  }

  /** The limits of one node by itself. */
  predicate NodeWithin(v: Value) {
    match v
    case Array(items) => |items| <= MAX_CONTAINER_ITEMS
    case Object(members) => |members| <= MAX_CONTAINER_ITEMS && KeysWithin(members)
    case String(s) => |s| <= MAX_STRING_CHARS
    case _ => true
  }

  lemma EnterArray(items: seq<Value>, depth: nat)
    requires depth <= MAX_DEPTH
    ensures Nodes(Array(items)) == 1 + PendingNodes(Enter(items, depth + 1))
    ensures Fits(Pending(Array(items), depth)) <==>
            |items| <= MAX_CONTAINER_ITEMS && AllFit(Enter(items, depth + 1))
  {
    EnterItems(items, depth + 1);
    assert MAX_DEPTH - (depth + 1) == MAX_DEPTH - depth - 1;
  }

  lemma EnterObject(members: seq<Member>, depth: nat)
    requires depth <= MAX_DEPTH
    ensures Nodes(Object(members)) == 1 + PendingNodes(Enter(Children(Object(members)), depth + 1))
    ensures Fits(Pending(Object(members), depth)) <==>
            && |members| <= MAX_CONTAINER_ITEMS && KeysWithin(members)
            && AllFit(Enter(Children(Object(members)), depth + 1))
  {
    EnterMembers(members, depth + 1);
    assert MAX_DEPTH - (depth + 1) == MAX_DEPTH - depth - 1;
  }

  /** A node fits when it is within its own limits and its children fit one level down. */
  lemma EnterChildren(v: Value, depth: nat)
    requires depth <= MAX_DEPTH
    ensures Nodes(v) == 1 + PendingNodes(Enter(Children(v), depth + 1))
    ensures Fits(Pending(v, depth)) <==> NodeWithin(v) && AllFit(Enter(Children(v), depth + 1))
  {
    if v.Array? {
      EnterArray(v.items, depth);
    } else if v.Object? {
      EnterObject(v.members, depth);
    } else {
      assert Enter(Children(v), depth + 1) == [];
    }
  }

  function SaturatingAdd(a: nat, b: nat, word: nat): nat {
    if a + b > word then word else a + b
  }

  lemma FitsAtTheTop(v: Value)
    ensures Fits(Pending(v, 0)) <==> DepthWithin(v, MAX_DEPTH) && SizesWithin(v)
  {}

  lemma TooDeep(v: Value, depth: nat)
    ensures depth > MAX_DEPTH ==> !Fits(Pending(v, depth))
  {}

  method StructureWithinBounds(metadata: Value, word: nat) returns (ok: bool)
    requires WordMax(word)
    ensures ok <==> StructureWithin(metadata)
  {
    var pending := [Pending(metadata, 0)];
    var nodes: nat := 0;
    assert pending[1..] == [];
    assert PendingNodes(pending) == Nodes(metadata) && (AllFit(pending) <==> Fits(Pending(metadata, 0)));
    hide Nodes, DepthWithin, SizesWithin, Fits;
    FitsAtTheTop(metadata);
    while pending != []
      invariant nodes <= MAX_NODES
      invariant nodes + PendingNodes(pending) == Nodes(metadata)
      invariant AllFit(pending) <==> Fits(Pending(metadata, 0))
      decreases PendingNodes(pending)
    {
      var last := |pending| - 1;
      var Pending(value, depth) := pending[last];
      assert pending == pending[..last] + [pending[last]];
      PendingConcat(pending[..last], [pending[last]]);
      assert PendingNodes([pending[last]]) == Nodes(value) && (AllFit([pending[last]]) <==> Fits(pending[last])) by {
        assert [pending[last]][1..] == [];
      }
      pending := pending[..last];
      nodes := SaturatingAdd(nodes, 1, word);
      TooDeep(value, depth);
      if nodes > MAX_NODES || depth > MAX_DEPTH {
        return false;
      }
      EnterChildren(value, depth);
      match value {
        case Object(members) =>
          if |members| > MAX_CONTAINER_ITEMS || exists i :: 0 <= i < |members| && |members[i].key| > MAX_KEY_CHARS {
            return false;
          }
        case Array(items) =>
          if |items| > MAX_CONTAINER_ITEMS {
            return false;
          }
        case String(s) =>
          if |s| > MAX_STRING_CHARS {
            return false;
          }
        case _ =>
      }
      PendingConcat(pending, Enter(Children(value), depth + 1));
      pending := pending + Enter(Children(value), SaturatingAdd(depth, 1, word));
    }
    ok := true;
  }

  // ---- The byte counter ----

  function Joined(chunks: seq<string>): string {
    if chunks == [] then "" else chunks[0] + Joined(chunks[1..])
  }

  class BoundedJsonCounter {
    var encodedBytes: nat
    const limit: nat
    const word: nat

    ghost predicate Valid()
      reads this
    {
      encodedBytes <= limit <= word
    }

    constructor (limit: nat, word: nat)
      requires limit <= word
      ensures Valid() && this.limit == limit && this.word == word && encodedBytes == 0
    {
      this.limit, this.word := limit, word;
      encodedBytes := 0;
    }

    /** Counts a chunk, or refuses it and leaves the count as it was. An overflowing sum is refused
      by the checked addition before it is compared with the limit. */
    method Write(length: nat) returns (ok: bool)
      requires Valid() && length <= word
      modifies this
      ensures Valid()
      ensures ok <==> old(encodedBytes) + length <= limit
      ensures encodedBytes == if ok then old(encodedBytes) + length else old(encodedBytes)
    {
      var sum := encodedBytes + length;
      if sum > word || sum > limit {
        return false;
      }
      encodedBytes := sum;
      ok := true;
    }
  }

  /** However the encoder splits its output, the counter lets it finish exactly when the whole
    output is within the limit. */
  method WriteAll(chunks: seq<string>, limit: nat, word: nat) returns (ok: bool)
    requires limit <= word
    requires forall i :: 0 <= i < |chunks| ==> Utf8Bytes(chunks[i]) <= word
    ensures ok <==> Utf8Bytes(Joined(chunks)) <= limit
  {
    var counter := new BoundedJsonCounter(limit, word);
    assert chunks[0..] == chunks;
    for i := 0 to |chunks|
      invariant counter.Valid() && counter.limit == limit && counter.word == word && fresh(counter)
      invariant counter.encodedBytes + Utf8Bytes(Joined(chunks[i..])) == Utf8Bytes(Joined(chunks))
    {
      assert chunks[i..][1..] == chunks[i + 1..];
      Utf8Concat(chunks[i], Joined(chunks[i + 1..]));
      var written := counter.Write(Utf8Bytes(chunks[i]));
      if !written {
        return false;
      }
    }
    assert Joined(chunks[|chunks|..]) == "";
    ok := true;
  }

  /** The whole check: traverse, then portability, then encode into the counter. */
  method MetadataWithinWireBounds(metadata: Value, chunks: seq<string>, word: nat) returns (ok: bool)
    requires WordMax(word) && Joined(chunks) == Text(metadata)
    requires forall i :: 0 <= i < |chunks| ==> Utf8Bytes(chunks[i]) <= word
    ensures ok <==> WithinWireBounds(metadata)
  {
    ok := StructureWithinBounds(metadata, word);
    if ok {
      if !Portable(metadata) {
        return false;
      }
      ok := WriteAll(chunks, MAX_METADATA_BYTES, word);
    }
  }
}
