/** The intrusive circular list: each entry points to its neighbours, and the head closes the ring. */
module ListEntry {
  import opened Sequences

  class Entry {
    var flink: Entry?
    var blink: Entry?

    constructor ()
      ensures flink == null && blink == null
    {
      flink, blink := null, null;
    }
  }

  /** Once around, from the head back to it. */
  ghost function Around(head: Entry, members: seq<Entry>): (around: seq<Entry>) {
    [head] + members + [head]
  }

  ghost predicate Linked(left: Entry, right: Entry)
    reads left, right
  {
    left.flink == right && right.blink == left
  }

  /** The head heads a list of exactly these members, in this order. */
  ghost predicate IsList(head: Entry, members: seq<Entry>)
    reads head, members
  {
    && head !in members && NoDuplicates(members)
    && var around := Around(head, members);
       forall i | 0 <= i <= |members| :: Linked(around[i], around[i + 1])
  }

  method InitializeListHead(head: Entry)
    modifies head
    ensures IsList(head, [])
  {
    head.blink := head;
    head.flink := head;
  }

  method IsListEmpty(head: Entry, ghost members: seq<Entry>) returns (empty: bool)
    requires IsList(head, members)
    ensures empty <==> members == []
  {
    assert Linked(Around(head, members)[0], Around(head, members)[1]);
    empty := head.flink == head;
  }

  /** Appends an entry that is not in the list; only the head and the last member change besides it. */
  method InsertTailList(head: Entry, entry: Entry, ghost members: seq<Entry>)
    requires IsList(head, members) && entry != head && entry !in members
    modifies head, entry, members
    ensures IsList(head, members + [entry])
    ensures forall m | m in members && m != members[|members| - 1] :: m.flink == old(m.flink) && m.blink == old(m.blink)
  {
    ghost var around := Around(head, members);
    ghost var n := |members|;
    assert Linked(around[n], around[n + 1]);
    var blink := head.blink;
    entry.flink := head;
    entry.blink := blink;
    blink.flink := entry;
    head.blink := entry;
    ghost var around' := Around(head, members + [entry]);
    forall i | 0 <= i <= n + 1
      ensures Linked(around'[i], around'[i + 1])
    {
      if i < n {
        assert around'[i] == around[i] && around'[i + 1] == around[i + 1];
        assert old(Linked(around[i], around[i + 1]));
      }
    }
  }

  /** Takes one member out; only its neighbours change. */
  method RemoveEntryList(entry: Entry, ghost head: Entry, ghost members: seq<Entry>, ghost k: nat) returns (empty: bool)
    requires IsList(head, members) && k < |members| && members[k] == entry
    modifies head, members
    ensures IsList(head, members[..k] + members[k + 1..])
    ensures empty <==> members[..k] + members[k + 1..] == []
    ensures entry.flink == old(entry.flink) && entry.blink == old(entry.blink)
  {
    ghost var around := Around(head, members);
    assert Linked(around[k], around[k + 1]) && Linked(around[k + 1], around[k + 2]);
    var flink := entry.flink;
    var blink := entry.blink;
    blink.flink := flink;
    flink.blink := blink;
    ghost var rest := members[..k] + members[k + 1..];
    ghost var around' := Around(head, rest);
    forall i | 0 <= i <= |rest|
      ensures Linked(around'[i], around'[i + 1])
    {
      var j := if i <= k then i else i + 1;
      assert around'[i] == around[j];
      assert around'[i + 1] == around[if i < k then i + 1 else i + 2];
      if i != k {
        assert old(Linked(around[j], around[j + 1]));
      }
    }
    empty := flink == blink;
  }

  // ---------------------------------------------------------------------------
  // Walks

  /** Following flink from the head meets the members in order. */
  method WalkForward(head: Entry, ghost members: seq<Entry>) returns (walk: seq<Entry>)
    requires IsList(head, members)
    ensures walk == members
  {
    ghost var around := Around(head, members);
    assert Linked(around[0], around[1]);
    walk := [];
    var current := head.flink;
    while current != head
      invariant |walk| <= |members| && walk == members[..|walk|] && current == around[|walk| + 1]
      decreases |members| - |walk|
    {
      assert Linked(around[|walk| + 1], around[|walk| + 2]);
      walk := walk + [current];
      current := current.flink;
    }
  }

  ghost function Reversed(entries: seq<Entry>): (reversed: seq<Entry>) {
    if entries == [] then [] else Reversed(entries[1..]) + [entries[0]]
  }

  /** Following blink from the head meets them the other way round. */
  method WalkBackward(head: Entry, ghost members: seq<Entry>) returns (walk: seq<Entry>)
    requires IsList(head, members)
    ensures walk == Reversed(members)
  {
    ghost var around := Around(head, members);
    ghost var left := |members|;
    assert Linked(around[left], around[left + 1]);
    walk := [];
    var current := head.blink;
    while current != head
      invariant 0 <= left <= |members| && walk == Reversed(members[left..]) && current == around[left]
      decreases left
    {
      assert left > 0 && Linked(around[left - 1], around[left]);
      assert members[left - 1..][1..] == members[left..];
      walk := walk + [current];
      current := current.blink;
      left := left - 1;
    }
    assert members[left..] == members;
  }

  // ---------------------------------------------------------------------------
  // Sequences of operations

  datatype Op = Insert(entry: Entry) | Remove(entry: Entry)

  function Without(members: seq<Entry>, entry: Entry): (rest: seq<Entry>) {
    if members == [] then []
    else if members[0] == entry then members[1..]
    else [members[0]] + Without(members[1..], entry)
  }

  function Contents(ops: seq<Op>): (members: seq<Entry>) {
    if ops == [] then []
    else
      var before, op := Contents(ops[..|ops| - 1]), ops[|ops| - 1];
      if op.Insert? then before + [op.entry] else Without(before, op.entry)
  }

  /** Only entries outside the list are inserted, and only members are removed. */
  ghost predicate Proper(head: Entry, ops: seq<Op>) {
    forall i | 0 <= i < |ops| ::
      if ops[i].Insert? then ops[i].entry != head && ops[i].entry !in Contents(ops[..i])
      else ops[i].entry in Contents(ops[..i])
  }

  function Entries(ops: seq<Op>): (entries: set<Entry>) {
    set op | op in ops :: op.entry
  }

  lemma {:induction false} WithoutAt(members: seq<Entry>, entry: Entry, k: nat)
    requires NoDuplicates(members) && k < |members| && members[k] == entry
    ensures Without(members, entry) == members[..k] + members[k + 1..]
  {
    if k > 0 {
      WithoutAt(members[1..], entry, k - 1);
    }
  }

  lemma {:induction false} WithoutMembers(members: seq<Entry>, entry: Entry)
    ensures forall e | e in Without(members, entry) :: e in members
  {
    if members != [] {
      WithoutMembers(members[1..], entry);
    }
  }

  lemma {:induction false} ContentsFromEntries(ops: seq<Op>)
    ensures forall e | e in Contents(ops) :: e in Entries(ops)
    decreases |ops|
  {
    if ops != [] {
      var before := ops[..|ops| - 1];
      ContentsFromEntries(before);
      WithoutMembers(Contents(before), ops[|ops| - 1].entry);
      assert ops == before + [ops[|ops| - 1]];
    }
  }

  lemma {:induction false} PrefixFromEntries(ops: seq<Op>, i: nat)
    requires i < |ops|
    ensures ops[i].entry in Entries(ops)
    ensures forall e | e in Contents(ops[..i]) :: e in Entries(ops)
  {
    assert ops[i] in ops;
    ContentsFromEntries(ops[..i]);
    assert forall op | op in ops[..i] :: op in ops;
  }

  lemma {:induction false} ContentsStep(ops: seq<Op>, i: nat)
    requires i < |ops|
    ensures Contents(ops[..i + 1]) ==
            var before := Contents(ops[..i]);
            if ops[i].Insert? then before + [ops[i].entry] else Without(before, ops[i].entry)
  {
    assert ops[..i + 1][..i] == ops[..i];
  }

  /** One operation on a list. */
  method Apply(head: Entry, op: Op, ghost members: seq<Entry>) returns (empty: bool)
    requires IsList(head, members)
    requires if op.Insert? then op.entry != head && op.entry !in members else op.entry in members
    modifies head, op.entry, members
    ensures IsList(head, if op.Insert? then members + [op.entry] else Without(members, op.entry))
    ensures op.Remove? ==> (empty <==> Without(members, op.entry) == [])
  {
    empty := false;
    match op {
      case Insert(entry) =>
        InsertTailList(head, entry, members);
      case Remove(entry) =>
        ghost var k :| 0 <= k < |members| && members[k] == entry;
        WithoutAt(members, entry, k);
        empty := RemoveEntryList(entry, head, members, k);
    }
  }

  /** The next operation of a sequence. */
  method ApplyNext(head: Entry, ops: seq<Op>, i: nat, ghost members: seq<Entry>)
    requires Proper(head, ops) && i < |ops| && members == Contents(ops[..i]) && IsList(head, members)
    modifies head, Entries(ops)
    ensures IsList(head, Contents(ops[..i + 1]))
  {
    ContentsStep(ops, i);
    PrefixFromEntries(ops, i);
    var op := ops[i];
    var empty := Apply(head, op, members);
  }

  /** Any sequence of inserts and removals leaves the list that it describes. */
  method ApplyAll(head: Entry, ops: seq<Op>)
    requires Proper(head, ops)
    modifies head, Entries(ops)
    ensures IsList(head, Contents(ops))
  {
    InitializeListHead(head);
    var i := 0;
    while i < |ops|
      invariant 0 <= i <= |ops| && IsList(head, Contents(ops[..i]))
    {
      ApplyNext(head, ops, i, Contents(ops[..i]));
      i := i + 1;
    }
    assert ops[..i] == ops;
  }
}
