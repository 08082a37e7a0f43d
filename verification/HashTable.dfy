/**
 The daemon's hash table: open addressing with linear probing over every slot,
 no marks for deleted entries, and a shortcut to the entry used last.
 */
module HashTable {
  import opened Bits

  const KEY_INVALID: nat := 0xFFFF_FFFF

  /** Pointers to stored records; zero is null. */
  type Pointer = nat

  /** Number of slots in use. */
  function InUse(keys: seq<nat>): (n: nat)
    ensures n <= |keys|
  {
    if keys == [] then 0
    else
      var m := |keys| - 1;
      InUse(keys[..m]) + (if keys[m] != KEY_INVALID then 1 else 0)
  }

  lemma {:induction false} InUseUpdate(keys: seq<nat>, i: nat, key: nat)
    requires i < |keys|
    ensures InUse(keys[i := key]) ==
            InUse(keys) - (if keys[i] != KEY_INVALID then 1 else 0) + (if key != KEY_INVALID then 1 else 0)
  {
    var m := |keys| - 1;
    if i < m {
      InUseUpdate(keys[..m], i, key);
      assert keys[i := key][..m] == keys[..m][i := key];
    } else {
      assert keys[i := key][..m] == keys[..m];
    }
  }

  lemma {:induction false} NotFull(keys: seq<nat>)
    ensures InUse(keys) < |keys| <==> exists i :: 0 <= i < |keys| && keys[i] == KEY_INVALID
  {
    if keys != [] {
      var m := |keys| - 1;
      NotFull(keys[..m]);
      assert forall i :: 0 <= i < m ==> keys[..m][i] == keys[i];
    }
  }

  /** `slots` gives the one slot of every stored key; free slots hold no record. */
  ghost predicate Holds(keys: seq<nat>, values: seq<Pointer>, slots: map<nat, nat>)
  {
    && |keys| == |values|
    && (forall i :: 0 <= i < |keys| && keys[i] != KEY_INVALID ==> keys[i] in slots && slots[keys[i]] == i)
    && (forall k :: k in slots ==> k != KEY_INVALID && slots[k] < |keys| && keys[slots[k]] == k)
    && (forall i :: 0 <= i < |keys| && keys[i] == KEY_INVALID ==> values[i] == 0)
    && InUse(keys) == |slots|
  }

  /** The table as a finite map. */
  ghost function View(keys: seq<nat>, values: seq<Pointer>, slots: map<nat, nat>): (view: map<nat, Pointer>)
    requires Holds(keys, values, slots)
    ensures view.Keys == slots.Keys
  {
    map k | k in slots :: values[slots[k]]
  }

  lemma HoldsPut(keys: seq<nat>, values: seq<Pointer>, slots: map<nat, nat>, i: nat, key: nat, value: Pointer)
    requires Holds(keys, values, slots) && i < |keys| && key != KEY_INVALID
    requires keys[i] == key || (keys[i] == KEY_INVALID && key !in slots)
    ensures Holds(keys[i := key], values[i := value], slots[key := i])
    ensures View(keys[i := key], values[i := value], slots[key := i]) == View(keys, values, slots)[key := value]
  {
    hide InUse, View;
    InUseUpdate(keys, i, key);
    Grows(slots, key, i);
    ViewPut(keys, values, slots, i, key, value);
  }

  lemma ViewPut(keys: seq<nat>, values: seq<Pointer>, slots: map<nat, nat>, i: nat, key: nat, value: Pointer)
    requires Holds(keys, values, slots) && i < |keys| && (keys[i] == key || keys[i] == KEY_INVALID)
    requires Holds(keys[i := key], values[i := value], slots[key := i])
    ensures View(keys[i := key], values[i := value], slots[key := i]) == View(keys, values, slots)[key := value]
  {
    hide Holds;
    StoredElsewhere(keys, values, slots, i, key);
  }

  /** Other keys are in other slots. */
  lemma StoredElsewhere(keys: seq<nat>, values: seq<Pointer>, slots: map<nat, nat>, i: nat, key: nat)
    requires Holds(keys, values, slots) && i < |keys| && (keys[i] == key || keys[i] == KEY_INVALID)
    ensures forall k :: k in slots && k != key ==> slots[k] != i && slots[k] < |keys|
    ensures keys[i] == key && key != KEY_INVALID ==> key in slots
    ensures |keys| == |values|
  {
  }

  lemma Grows(slots: map<nat, nat>, key: nat, at: nat)
    ensures |slots[key := at]| == |slots| + (if key in slots then 0 else 1)
  {
    assert key in slots ==> slots[key := at].Keys == slots.Keys;
    assert key !in slots ==> slots[key := at].Keys == slots.Keys + {key};
  }

  lemma Shrinks(slots: map<nat, nat>, key: nat)
    requires key in slots
    ensures |slots - {key}| == |slots| - 1
  {
    assert (slots - {key}).Keys == slots.Keys - {key};
  }

  lemma HoldsDel(keys: seq<nat>, values: seq<Pointer>, slots: map<nat, nat>, i: nat)
    requires Holds(keys, values, slots) && i < |keys| && keys[i] != KEY_INVALID
    ensures Holds(keys[i := KEY_INVALID], values[i := 0], slots - {keys[i]})
    ensures View(keys[i := KEY_INVALID], values[i := 0], slots - {keys[i]}) == View(keys, values, slots) - {keys[i]}
  {
    hide InUse;
    InUseUpdate(keys, i, KEY_INVALID);
    Shrinks(slots, keys[i]);
  }

  lemma Room(keys: seq<nat>, values: seq<Pointer>, slots: map<nat, nat>)
    requires Holds(keys, values, slots) && |slots| < |keys|
    ensures exists i :: 0 <= i < |keys| && keys[i] == KEY_INVALID
  {
    NotFull(keys);
  }

  /** Where the probe for a key starts, and where it goes on. */
  method FirstSlot(key: nat, size: nat) returns (idx: nat)
    requires size >= 1
    ensures idx < size
  {
    idx := key % size;
  }

  method NextSlot(idx: nat, size: nat) returns (r: nat)
    requires idx < size
    ensures r == if idx + 1 == size then 0 else idx + 1
  {
    DivModUnique(idx + 1, size, if idx + 1 == size then 1 else 0, if idx + 1 == size then 0 else idx + 1);
    r := (idx + 1) % size;
  }

  /** What finding a slot, or none, says about the map. */
  lemma Found(keys: seq<nat>, values: seq<Pointer>, slots: map<nat, nat>, key: nat, at: int)
    requires Holds(keys, values, slots) && -1 <= at < |keys|
    requires if at < 0 then forall i :: 0 <= i < |keys| ==> keys[i] != key else keys[at] == key
    ensures var view := View(keys, values, slots);
            && (key in view <==> at >= 0 && key != KEY_INVALID) && (key in view <==> key in slots)
            && (key in view ==> view[key] == values[at])
            && (at >= 0 && key == KEY_INVALID ==> values[at] == 0)
  {
  }

  /** What storing in a slot does to a sound table. */
  lemma PutKeeps(keys: seq<nat>, values: seq<Pointer>, slots: map<nat, nat>, at: nat, key: nat, value: Pointer)
    requires Holds(keys, values, slots) && at < |keys|
    requires keys[at] == key || (keys[at] == KEY_INVALID && forall i :: 0 <= i < |keys| ==> keys[i] != key)
    ensures Record(values[at]) == Replaced(View(keys, values, slots), key)
    ensures key == KEY_INVALID ==> keys[at := key] == keys && Record(values[at]) == []
    ensures key != KEY_INVALID ==>
              && Holds(keys[at := key], values[at := value], slots[key := at])
              && View(keys[at := key], values[at := value], slots[key := at]) == View(keys, values, slots)[key := value]
              && |slots[key := at]| == |slots| + (if keys[at] == KEY_INVALID then 1 else 0)
  {
    hide Holds, View, InUse;
    Found(keys, values, slots, key, if keys[at] == key then at else -1);
    Found(keys, values, slots, keys[at], at);
    if key != KEY_INVALID {
      Grows(slots, key, at);
      HoldsPut(keys, values, slots, at, key, value);
    }
  }

  /** What emptying the slot of a key, if it has one, does to a sound table. */
  lemma DelKeeps(keys: seq<nat>, values: seq<Pointer>, slots: map<nat, nat>, at: int, key: nat)
    requires Holds(keys, values, slots) && -1 <= at < |keys|
    requires if at < 0 then forall i :: 0 <= i < |keys| ==> keys[i] != key else keys[at] == key
    ensures at < 0 ==> View(keys, values, slots) - {key} == View(keys, values, slots)
    ensures at < 0 ==> Replaced(View(keys, values, slots), key) == []
    ensures at >= 0 ==>
              && Holds(keys[at := KEY_INVALID], values[at := 0], slots - {key})
              && View(keys[at := KEY_INVALID], values[at := 0], slots - {key}) == View(keys, values, slots) - {key}
              && Record(values[at]) == Replaced(View(keys, values, slots), key)
              && |slots - {key}| == |slots| - (if key == KEY_INVALID then 0 else 1)
  {
    hide Holds, View, InUse;
    Found(keys, values, slots, key, at);
    if at >= 0 {
      if key != KEY_INVALID {
        Shrinks(slots, key);
        HoldsDel(keys, values, slots, at);
      } else {
        DelMarker(keys, values, slots, at);
      }
    }
  }

  lemma DelMarker(keys: seq<nat>, values: seq<Pointer>, slots: map<nat, nat>, at: nat)
    requires Holds(keys, values, slots) && at < |keys| && keys[at] == KEY_INVALID
    ensures keys[at := KEY_INVALID] == keys && at < |values| && values[at := 0] == values
    ensures slots - {KEY_INVALID} == slots
    ensures View(keys, values, slots) - {KEY_INVALID} == View(keys, values, slots)
  {
  }

  /** A record is worth freeing unless it is null. */
  function Record(p: Pointer): seq<Pointer>
  {
    if p != 0 then [p] else []
  }

  class Table {
    const size: nat
    const keys: array<nat>
    const values: array<Pointer>
    var last: int                 // slot used last, or -1
    var count: int
    var freed: seq<Pointer>       // records given to the free function, in order
    ghost var slots: map<nat, nat>

    ghost predicate Shaped()
      reads this
    {
      && size >= 1 && keys.Length == values.Length == size && keys != values
      && -1 <= last < size
    }

    ghost predicate Valid()
      reads this, keys, values
    {
      Shaped() && Holds(keys[..], values[..], slots) && count == |slots|
    }

    ghost function Contents(): map<nat, Pointer>
      reads this, keys, values
      requires Valid()
    {
      View(keys[..], values[..], slots)
    }

    constructor (size: nat)
      requires size >= 1
      ensures Valid() && Contents() == map[] && this.size == size && freed == []
      ensures fresh(keys) && fresh(values)
    {
      this.size := size;
      keys := new nat[size](_ => KEY_INVALID);
      values := new Pointer[size](_ => 0);
      last, count, freed, slots := -1, 0, [], map[];
      new;
      Unused(keys[..]);
    }

    /** The count is the size of the map, which never exceeds the number of slots. */
    lemma Counted()
      requires Valid()
      ensures count == |Contents()| <= size
    {
    }

    /**
     The slot of a key, or with `add` a free one: the shortcut and the probe agree, and when
     neither finds a slot there is none.
     */
    method Find(key: nat, add: bool) returns (at: int)
      requires Shaped() && (add ==> forall i :: 0 <= i < size ==> keys[i] != key || key == KEY_INVALID)
      modifies this`last
      ensures Shaped() && -1 <= at < size
      ensures var want := if add then KEY_INVALID else key;
              if at < 0 then forall i :: 0 <= i < size ==> keys[i] != want else keys[at] == want
    {
      if last >= 0 && keys[last] == key {
        return last;
      }
      var want := if add then KEY_INVALID else key;
      var start := FirstSlot(key, size);
      var idx, attempts := start, 0;
      while keys[idx] != want
        invariant Shaped() && 0 <= start < size && 0 <= attempts < size
        invariant idx == if start + attempts < size then start + attempts else start + attempts - size
        invariant forall i :: start <= i < start + attempts && i < size ==> keys[i] != want
        invariant forall i :: 0 <= i < start + attempts - size ==> keys[i] != want
        decreases size - attempts
      {
        if attempts >= size - 1 {
          return -1;
        }
        attempts := attempts + 1;
        idx := NextSlot(idx, size);
      }
      last := idx;
      return idx;
    }

    /** The record of a key, or null. */
    method Get(key: nat) returns (r: Pointer)
      requires Valid()
      modifies this`last
      ensures Valid() && Contents() == old(Contents())
      ensures r == if key in Contents() then Contents()[key] else 0
    {
      hide Holds, View;
      var at := Find(key, false);
      Found(keys[..], values[..], slots, key, at);
      if at >= 0 {
        return values[at];
      }
      return 0;
    }

    method Free(p: Pointer)
      modifies this`freed
      ensures freed == old(freed) + Record(p)
    {
      if p != 0 {
        freed := freed + [p];
      }
    }

    method Store(at: nat, key: nat, value: Pointer)
      requires Shaped() && at < size
      modifies keys, values
      ensures keys[..] == old(keys[..])[at := key] && values[..] == old(values[..])[at := value]
    {
      keys[at] := key;
      values[at] := value;
    }

    /**
     Store a record, freeing the one it replaces.  A full table refuses, even to replace.  The key
     that marks free slots is counted but never stored, which breaks the table.
     */
    method Put(key: nat, value: Pointer) returns (r: Pointer)
      requires Shaped()
      modifies this, keys, values
      ensures Shaped()
      ensures old(count) >= size ==>
                && r == 0 && last == old(last)
                && Same(old(keys[..]), old(values[..]), old(slots), old(count), old(freed))
      ensures old(Valid()) && old(count) < size ==> r == value
      ensures old(Valid()) && old(count) < size && key != KEY_INVALID ==>
                && Valid() && Contents() == old(Contents())[key := value]
                && freed == old(freed) + Replaced(old(Contents()), key)
      ensures old(Valid()) && old(count) < size && key == KEY_INVALID ==>
                !Valid() && slots == old(slots) && freed == old(freed)
      ensures key == KEY_INVALID && old(count) < size && (KEY_INVALID in old(keys[..]) || old(Valid())) ==>
                keys[..] == old(keys[..]) && count == old(count) + 1
    {
      hide Holds, View, InUse, Replaced;
      if count >= size {
        return 0;
      }
      ghost var ks, vs, m := keys[..], values[..], slots;
      if Valid() { Room(ks, vs, m); }
      var at := Locate(key);
      if at < 0 {
        return 0;
      }
      if Valid() { PutKeeps(ks, vs, m, at, key, value); }
      Occupy(at, key, value);
      return value;
    }

    /** The table holds exactly this. */
    ghost predicate Same(ks: seq<nat>, vs: seq<Pointer>, m: map<nat, nat>, n: int, f: seq<Pointer>)
      reads this, keys, values
    {
      keys[..] == ks && values[..] == vs && slots == m && count == n && freed == f
    }

    /** The slot of a key, or else a free one, or -1. */
    method Locate(key: nat) returns (at: int)
      requires Shaped()
      modifies this`last
      ensures Shaped() && -1 <= at < size
      ensures at >= 0 ==> keys[at] == key || (keys[at] == KEY_INVALID && forall i :: 0 <= i < size ==> keys[i] != key)
      ensures at < 0 ==> forall i :: 0 <= i < size ==> keys[i] != KEY_INVALID
    {
      at := Find(key, false);
      if at < 0 {
        at := Find(key, true);
      }
    }

    /** Store a record in a slot, freeing the one that is there. */
    method Occupy(at: nat, key: nat, value: Pointer)
      requires Shaped() && at < size
      modifies this`freed, this`count, this`slots, keys, values
      ensures keys[..] == old(keys[..])[at := key] && values[..] == old(values[..])[at := value]
      ensures freed == old(freed) + Record(old(values[at]))
      ensures count == old(count) + (if old(keys[at]) == KEY_INVALID then 1 else 0)
      ensures slots == if key == KEY_INVALID then old(slots) else old(slots)[key := at]
    {
      Free(values[at]);
      if keys[at] == KEY_INVALID {
        count := count + 1;
      }
      Store(at, key, value);
      if key != KEY_INVALID {
        slots := slots[key := at];
      }
    }

    /** Empty a slot, freeing its record. */
    method Erase(at: nat)
      requires Shaped() && at < size
      modifies this`freed, this`count, this`slots, keys, values
      ensures keys[..] == old(keys[..])[at := KEY_INVALID] && values[..] == old(values[..])[at := 0]
      ensures freed == old(freed) + Record(old(values[at]))
      ensures count == old(count) - (if old(keys[at]) == KEY_INVALID then 0 else 1)
      ensures slots == old(slots) - {old(keys[at])}
    {
      Free(values[at]);
      if keys[at] != KEY_INVALID {
        count := count - 1;
      }
      slots := slots - {keys[at]};
      Store(at, KEY_INVALID, 0);
    }

    /** Remove a record and free it.  The key that marks free slots is never taken off the count. */
    method Del(key: nat)
      requires Shaped()
      modifies this, keys, values
      ensures Shaped()
      ensures old(Valid()) ==> Valid() && Contents() == old(Contents()) - {key}
      ensures old(Valid()) ==> freed == old(freed) + Replaced(old(Contents()), key)
      ensures key == KEY_INVALID ==> keys[..] == old(keys[..]) && count == old(count)
    {
      hide Holds, View, InUse, Replaced;
      ghost var ks, vs, m := keys[..], values[..], slots;
      var at := Find(key, false);
      if Valid() { DelKeeps(ks, vs, m, at, key); }
      if at >= 0 {
        Erase(at);
      }
    }

    /** Free every record, slot by slot. */
    method Destroy()
      requires Valid()
      modifies this`freed, keys, values
      ensures freed == old(freed) + Records(old(values[..]))
      ensures forall i :: 0 <= i < size ==> keys[i] == KEY_INVALID && values[i] == 0
    {
      hide Records, InUse;
      ghost var vs := values[..];
      NoRecords(keys[..], vs);
      for i := 0 to size
        invariant freed == old(freed) + Records(vs[..i])
        invariant forall j :: 0 <= j < i ==> keys[j] == KEY_INVALID && values[j] == 0
        invariant forall j :: i <= j < size ==> values[j] == vs[j] && (keys[j] == KEY_INVALID ==> values[j] == 0)
      {
        RecordsStep(vs, i);
        if keys[i] != KEY_INVALID {
          Free(values[i]);
          keys[i], values[i] := KEY_INVALID, 0;
        }
      }
      assert vs[..size] == vs;
    }

    /** The records from slot to slot; the scan stops early once it has seen as many as are stored. */
    method Scan() returns (seen: seq<Pointer>)
      requires Valid() && forall i :: 0 <= i < size && keys[i] != KEY_INVALID ==> values[i] != 0
      ensures seen == Records(values[..]) && |seen| == |Contents()|
      ensures forall k :: k in Contents() ==> Contents()[k] in seen
    {
      hide Records, InUse;
      var i, j := 0, 0;
      seen := [];
      NoRecords(keys[..], values[..]);
      while i < size && j < count
        invariant 0 <= i <= size && j == |seen| == InUse(keys[..i]) <= count
        invariant seen == Records(values[..i])
        invariant forall k :: 0 <= k < i && values[k] != 0 ==> values[k] in seen
      {
        RecordsStep(values[..], i);
        InUseStep(keys[..], i);
        var value := values[i];
        if value != 0 {
          j, seen := j + 1, seen + [value];
        }
        i := i + 1;
      }
      assert keys[..size] == keys[..];
      Rest(keys[..], values[..], i);
    }
  }

  lemma InUseStep(keys: seq<nat>, i: nat)
    requires i < |keys|
    ensures InUse(keys[..i + 1]) == InUse(keys[..i]) + (if keys[i] != KEY_INVALID then 1 else 0) <= InUse(keys)
  {
    assert keys[..i + 1][..i] == keys[..i];
    InUsePrefix(keys, i + 1);
  }

  lemma {:induction false} InUsePrefix(keys: seq<nat>, i: nat)
    requires i <= |keys|
    ensures InUse(keys[..i]) <= InUse(keys)
  {
    if i == |keys| {
      assert keys[..i] == keys;
    } else {
      var m := |keys| - 1;
      InUsePrefix(keys[..m], i);
      assert keys[..m][..i] == keys[..i];
    }
  }

  lemma NoRecords(keys: seq<nat>, values: seq<Pointer>)
    ensures Records(values[..0]) == [] && InUse(keys[..0]) == 0
  {
  }

  lemma RecordsStep(values: seq<Pointer>, i: nat)
    requires i < |values|
    ensures Records(values[..i + 1]) == Records(values[..i]) + if values[i] != 0 then [values[i]] else []
  {
    assert values[..i + 1][..i] == values[..i];
  }

  /** Once as many slots in use have been seen as there are, the rest hold no record. */
  lemma {:induction false} Rest(keys: seq<nat>, values: seq<Pointer>, i: nat)
    requires |keys| == |values| && i <= |keys|
    requires forall k :: 0 <= k < |keys| && keys[k] == KEY_INVALID ==> values[k] == 0
    requires i == |keys| || InUse(keys[..i]) == InUse(keys)
    ensures Records(values) == Records(values[..i]) && forall k :: i <= k < |keys| ==> values[k] == 0
    decreases |keys| - i
  {
    if i == |keys| {
      assert values[..i] == values;
    } else {
      InUseStep(keys, i);
      RecordsStep(values, i);
      assert i + 1 == |keys| ==> keys[..i + 1] == keys;
      Rest(keys, values, i + 1);
    }
  }

  // ---------- every run of operations ----------

  datatype Op = PutOp(key: nat, value: Pointer) | GetOp(key: nat) | DelOp(key: nat)

  /** What an operation does to a plain map of at most `size` keys, and what it answers. */
  ghost function Apply(size: nat, view: map<nat, Pointer>, op: Op): map<nat, Pointer>
  {
    match op
    case PutOp(key, value) => if |view| < size then view[key := value] else view
    case GetOp(_) => view
    case DelOp(key) => view - {key}
  }

  ghost function Answer(size: nat, view: map<nat, Pointer>, op: Op): Pointer
  {
    match op
    case PutOp(_, value) => if |view| < size then value else 0
    case GetOp(key) => if key in view then view[key] else 0
    case DelOp(_) => 0
  }

  ghost function ApplyAll(size: nat, view: map<nat, Pointer>, ops: seq<Op>): map<nat, Pointer>
  {
    if ops == [] then view
    else var n := |ops| - 1; Apply(size, ApplyAll(size, view, ops[..n]), ops[n])
  }

  ghost function Answers(size: nat, view: map<nat, Pointer>, ops: seq<Op>): seq<Pointer>
  {
    if ops == [] then []
    else var n := |ops| - 1;
         Answers(size, view, ops[..n]) + [Answer(size, ApplyAll(size, view, ops[..n]), ops[n])]
  }

  /** Any sequence of operations answers, and leaves behind, what a plain map would. */
  method Execute(t: Table, ops: seq<Op>) returns (answers: seq<Pointer>)
    requires t.Valid() && forall i :: 0 <= i < |ops| && ops[i].PutOp? ==> ops[i].key != KEY_INVALID
    modifies t, t.keys, t.values
    ensures t.Valid() && t.Contents() == ApplyAll(t.size, old(t.Contents()), ops)
    ensures answers == Answers(t.size, old(t.Contents()), ops)
  {
    hide Holds, View, Replaced;
    answers := [];
    for i := 0 to |ops|
      invariant t.Valid() && t.Contents() == ApplyAll(t.size, old(t.Contents()), ops[..i])
      invariant answers == Answers(t.size, old(t.Contents()), ops[..i])
    {
      assert ops[..i + 1][..i] == ops[..i];
      t.Counted();
      var r := Step(t, ops[i]);
      answers := answers + [r];
    }
    assert ops[..|ops|] == ops;
  }

  method Step(t: Table, op: Op) returns (r: Pointer)
    requires t.Valid() && (op.PutOp? ==> op.key != KEY_INVALID)
    modifies t, t.keys, t.values
    ensures t.Valid() && t.Contents() == Apply(t.size, old(t.Contents()), op)
    ensures r == Answer(t.size, old(t.Contents()), op)
  {
    hide Holds, View, Replaced;
    t.Counted();
    match op {
      case PutOp(key, value) => r := t.Put(key, value);
      case GetOp(key) => r := t.Get(key);
      case DelOp(key) => t.Del(key); r := 0;
    }
  }

  /** The stored records, in slot order. */
  function Records(values: seq<Pointer>): seq<Pointer>
  {
    if values == [] then []
    else var n := |values| - 1; Records(values[..n]) + Record(values[n])
  }

  /** The record that storing or removing a key frees. */
  ghost function Replaced(view: map<nat, Pointer>, key: nat): seq<Pointer>
  {
    if key in view then Record(view[key]) else []
  }

  lemma {:induction false} Unused(keys: seq<nat>)
    requires forall i :: 0 <= i < |keys| ==> keys[i] == KEY_INVALID
    ensures InUse(keys) == 0
  {
    if keys != [] { Unused(keys[..|keys| - 1]); }
  }

  // ---------- the records of a table ----------

  /** Every key has a record of its own. */
  ghost predicate Distinct(view: map<nat, Pointer>)
  {
    && (forall k :: k in view ==> view[k] != 0)
    && (forall k, l :: k in view && l in view && k != l ==> view[k] != view[l])
  }

  lemma {:induction false} RecordsHas(values: seq<Pointer>, x: Pointer)
    ensures x in Records(values) <==> x != 0 && x in values
  {
    if values != [] {
      var n := |values| - 1;
      RecordsHas(values[..n], x);
      assert values == values[..n] + [values[n]];
    }
  }

  lemma {:induction false} RecordsOnce(values: seq<Pointer>, x: Pointer)
    requires forall i, j :: 0 <= i < j < |values| && values[i] != 0 ==> values[i] != values[j]
    ensures multiset(Records(values))[x] <= 1
  {
    if values != [] {
      var n := |values| - 1;
      RecordsOnce(values[..n], x);
      RecordsHas(values[..n], x);
      assert forall i :: 0 <= i < n ==> values[..n][i] == values[i];
    }
  }

  /** The records of a sound table are the values of its map, each once. */
  lemma RecordsAre(keys: seq<nat>, values: seq<Pointer>, slots: map<nat, nat>)
    requires Holds(keys, values, slots) && Distinct(View(keys, values, slots))
    ensures multiset(Records(values)) == multiset(View(keys, values, slots).Values)
  {
    hide InUse, Records;
    forall i, j | 0 <= i < j < |values| && values[i] != 0 ensures values[i] != values[j] {
      assert View(keys, values, slots)[keys[i]] == values[i];
      if keys[j] != KEY_INVALID {
        assert View(keys, values, slots)[keys[j]] == values[j];
      }
    }
    forall x ensures multiset(Records(values))[x] == multiset(View(keys, values, slots).Values)[x] {
      RecordsOnce(values, x);
      RecordsHas(values, x);
      ValuesHas(keys, values, slots, x);
    }
  }

  lemma ValuesHas(keys: seq<nat>, values: seq<Pointer>, slots: map<nat, nat>, x: Pointer)
    requires Holds(keys, values, slots) && Distinct(View(keys, values, slots))
    ensures x in View(keys, values, slots).Values <==> x != 0 && x in values
  {
    hide InUse;
    if x != 0 && x in values {
      var i :| 0 <= i < |values| && values[i] == x;
      assert keys[i] in slots && View(keys, values, slots)[keys[i]] == x;
    }
  }

  // ---------- the key that marks free slots ----------

  /**
   Storing and removing the marker `size` times leaves an empty table that refuses every key: each
   round raises the count and nothing lowers it.
   */
  method MarkerExhausts(t: Table, value: Pointer, key: nat, other: Pointer) returns (r: Pointer)
    requires t.Valid() && t.Contents() == map[]
    modifies t, t.keys, t.values
    ensures t.count == t.size && forall i :: 0 <= i < t.size ==> t.keys[i] == KEY_INVALID
    ensures r == 0
  {
    assert t.slots.Keys == {} && forall i :: 0 <= i < t.size ==> t.keys[i] == KEY_INVALID;
    hide Holds, View, Replaced;
    for n := 0 to t.size
      invariant t.Shaped() && t.count == n
      invariant forall i :: 0 <= i < t.size ==> t.keys[i] == KEY_INVALID
    {
      assert t.keys[..][0] == KEY_INVALID;
      ghost var ks := t.keys[..];
      var _ := t.Put(KEY_INVALID, value);
      t.Del(KEY_INVALID);
      assert t.keys[..] == ks;
    }
    ghost var ks := t.keys[..];
    r := t.Put(key, other);
    assert t.keys[..] == ks;
  }
}
