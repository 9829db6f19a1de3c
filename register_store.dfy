/**
 * The register store kept by the register service: named, fixed-capacity
 * arrays of unsigned 32-bit registers, plus, per array, the set of indices
 * that have been written at least once.
 *
 * This module gives the meaning of every request as a pure function from one
 * store state to the next (a status and the new state), states the store's
 * invariant and proves what the requests promise about each other.  The
 * server object that performs the requests in place lives in module
 * RegisterServer and is specified by these functions.
 */
module RegisterStore {

  /** The protobuf `uint32` fields: capacity, size, index and register values. */
  type u32 = x: int | 0 <= x < 0x1_0000_0000

  /** `x + 1` on a C++ `uint32_t`, which wraps to zero past the largest value. */
  function Inc(x: u32): (r: u32)
    ensures x < 0xFFFF_FFFF ==> r == x + 1
    ensures x == 0xFFFF_FFFF ==> r == 0
  {
    (x + 1) % 0x1_0000_0000
  }

  /** One register array, as stored and as copied into a response. */
  datatype RegisterArray = RegisterArray(name: string, capacity: u32, size: u32, items: seq<u32>)

  /** The status codes the service answers with. */
  datatype Status = Ok | NotFound | AlreadyExists | OutOfRange

  /**
   * The two tables of the service, both keyed by array name: the arrays
   * themselves and the indices already written in each.
   */
  datatype Store = Store(registers: map<string, RegisterArray>, written: map<string, set<u32>>)

  /** The outcome of a request that may change the store. */
  datatype Step = Step(status: Status, after: Store)

  /** The answer to a read: its status and the value field of the response. */
  datatype ReadReply = ReadReply(status: Status, value: u32)

  /** The store of a freshly started server. */
  const Empty: Store := Store(map[], map[])

  /** What holds of the array stored under `name` and of its written-index set. */
  predicate Consistent(name: string, a: RegisterArray, written: set<u32>)
  {
    && a.name == name
    && |a.items| == a.capacity
    && forall i :: i in written ==> i < a.capacity
  }

  /**
   * The store invariant: both tables have the same names, every array carries
   * its own name and exactly `capacity` items, and only valid indices are
   * ever recorded as written.
   */
  predicate Invariant(s: Store)
  {
    && s.registers.Keys == s.written.Keys
    && forall name :: name in s.registers ==> Consistent(name, s.registers[name], s.written[name])
  }

  /** A new array: the given name and capacity, size 0, every item 0. */
  function Zeroed(name: string, capacity: u32): (a: RegisterArray)
    ensures Consistent(name, a, {}) && a.capacity == capacity && a.size == 0
    ensures forall i :: 0 <= i < |a.items| ==> a.items[i] == 0
  {
    RegisterArray(name, capacity, 0, seq(capacity, _ => 0))
  }

  /**
   * CreateRegisterArray: fails with AlreadyExists, changing nothing, when the
   * name is taken; otherwise adds a zeroed array and an empty written set
   * under the name and leaves every other entry alone.
   */
  function Create(s: Store, name: string, capacity: u32): (r: Step)
    ensures r.status in {Ok, AlreadyExists}
    ensures r.status == AlreadyExists <==> name in s.registers
    ensures r.status == AlreadyExists ==> r.after == s
    ensures r.after.registers.Keys == s.registers.Keys + {name}
    ensures r.status == Ok ==> r.after.written.Keys == s.written.Keys + {name}
    ensures r.status == Ok ==> r.after.registers[name] == Zeroed(name, capacity) && r.after.written[name] == {}
    ensures forall k :: k in s.registers && k != name ==> r.after.registers[k] == s.registers[k]
    ensures forall k :: k in s.written && k != name ==> r.after.written[k] == s.written[k]
    ensures Invariant(s) ==> Invariant(r.after)
  {
    if name in s.registers then
      Step(AlreadyExists, s)
    else
      Step(Ok, Store(s.registers[name := Zeroed(name, capacity)], s.written[name := {}]))
  }

  /**
   * DeleteRegisterArray: fails with NotFound, changing nothing, when the name
   * is absent; otherwise removes the name from both tables and keeps every
   * other entry.
   */
  function Delete(s: Store, name: string): (r: Step)
    ensures r.status in {Ok, NotFound}
    ensures r.status == NotFound <==> name !in s.registers
    ensures r.status == NotFound ==> r.after == s
    ensures r.status == Ok ==> r.after.registers.Keys == s.registers.Keys - {name}
    ensures r.status == Ok ==> r.after.written.Keys == s.written.Keys - {name}
    ensures forall k :: k in r.after.registers ==> k in s.registers && r.after.registers[k] == s.registers[k]
    ensures forall k :: k in r.after.written ==> k in s.written && r.after.written[k] == s.written[k]
    ensures Invariant(s) ==> Invariant(r.after)
  {
    if name !in s.registers then
      Step(NotFound, s)
    else
      Step(Ok, Store(s.registers - {name}, s.written - {name}))
  }

  /**
   * ReadValue: NotFound for an absent name, OutOfRange exactly when the index
   * is not below the capacity, otherwise the item at the index.  The value
   * of a failed read is 0, the default of the response's value field.
   */
  function Read(s: Store, name: string, index: u32): (r: ReadReply)
    requires Invariant(s)
    ensures r.status in {Ok, NotFound, OutOfRange}
    ensures r.status == NotFound <==> name !in s.registers
    ensures r.status == OutOfRange <==> name in s.registers && index >= s.registers[name].capacity
    ensures r.status == Ok ==> index < |s.registers[name].items| && r.value == s.registers[name].items[index]
    ensures r.status != Ok ==> r.value == 0
  {
    if name !in s.registers then
      ReadReply(NotFound, 0)
    else if index >= s.registers[name].capacity then
      ReadReply(OutOfRange, 0)
    else
      ReadReply(Ok, s.registers[name].items[index])
  }

  /**
   * WriteValue.  Both failures return before anything changes.  A successful
   * write stores the value at the index, moves `size` one step on (a
   * `uint32_t`, so it wraps), whether or not the index was written before,
   * and records the index as written.  This is the closed form of the two
   * `size` stores the server performs; RegisterServer proves its step by
   * step version equal to it.
   */
  function Write(s: Store, name: string, index: u32, value: u32): (r: Step)
    requires Invariant(s)
    ensures r.status in {Ok, NotFound, OutOfRange}
    ensures r.status == NotFound <==> name !in s.registers
    ensures r.status == OutOfRange <==> name in s.registers && index >= s.registers[name].capacity
    ensures r.status != Ok ==> r.after == s
    ensures Invariant(r.after)
    ensures r.after.registers.Keys == s.registers.Keys
    ensures forall k :: k in s.registers && k != name ==>
              r.after.registers[k] == s.registers[k] && r.after.written[k] == s.written[k]
    ensures r.status == Ok ==>
              var (before, after) := (s.registers[name], r.after.registers[name]);
              && after.name == before.name
              && after.capacity == before.capacity
              && |after.items| == |before.items|
              && after.items[index] == value
              && (forall j :: 0 <= j < |after.items| && j != index ==> after.items[j] == before.items[j])
              && after.size == Inc(before.size)
              && r.after.written[name] == s.written[name] + {index}
  {
    if name !in s.registers then
      Step(NotFound, s)
    else
      var reg := s.registers[name];
      if index >= reg.capacity then
        Step(OutOfRange, s)
      else
        var stored := reg.(items := reg.items[index := value], size := Inc(reg.size));
        Step(Ok, Store(s.registers[name := stored], s.written[name := s.written[name] + {index}]))
  }

  // ---------------------------------------------------------------------
  // Requests against each other
  // ---------------------------------------------------------------------

  /** A freshly created array reads 0 at every valid index. */
  lemma CreateThenRead(s: Store, name: string, capacity: u32, index: u32)
    requires Invariant(s) && name !in s.registers && index < capacity
    ensures Read(Create(s, name, capacity).after, name, index) == ReadReply(Ok, 0)
  {
  }

  /**
   * A write followed by a read of the same index returns the written value;
   * a read of any other index of any array returns what it returned before.
   */
  lemma WriteThenRead(s: Store, name: string, index: u32, value: u32, other: string, j: u32)
    requires Invariant(s) && Write(s, name, index, value).status == Ok
    ensures Read(Write(s, name, index, value).after, name, index) == ReadReply(Ok, value)
    ensures other != name || j != index ==>
              Read(Write(s, name, index, value).after, other, j) == Read(s, other, j)
  {
  }

  /**
   * After a successful delete the name is gone for reads and writes, and a
   * create under the same name succeeds with a fresh zeroed array and no
   * written indices: nothing of the old array survives.
   */
  lemma DeleteThenRecreate(s: Store, name: string, capacity: u32, index: u32, value: u32)
    requires Invariant(s) && Delete(s, name).status == Ok
    ensures Read(Delete(s, name).after, name, index).status == NotFound
    ensures Write(Delete(s, name).after, name, index, value).status == NotFound
    ensures var c := Create(Delete(s, name).after, name, capacity);
            c.status == Ok && c.after.registers[name] == Zeroed(name, capacity) && c.after.written[name] == {}
  {
  }

  /**
   * Writing twice to the same index moves `size` on twice: `size` counts
   * successful writes, not distinct written indices.
   */
  lemma RepeatedWriteCountsTwice(s: Store, name: string, index: u32, v1: u32, v2: u32)
    requires Invariant(s) && Write(s, name, index, v1).status == Ok
    ensures var s1 := Write(s, name, index, v1).after;
            var s2 := Write(s1, name, index, v2).after;
            && s2.registers[name].size == Inc(Inc(s.registers[name].size))
            && s2.written[name] == s1.written[name] == s.written[name] + {index}
            && Read(s2, name, index) == ReadReply(Ok, v2)
  {
  }

  /**
   * The written-index sets are never observed: since every successful write
   * advances `size` whatever the set holds, two stores with the same arrays
   * answer every read and write alike and end with the same arrays, however
   * their written sets differ.  (Get and get-all read only the arrays.)
   */
  lemma WrittenNeverObserved(s: Store, t: Store, name: string, index: u32, value: u32)
    requires Invariant(s) && Invariant(t) && s.registers == t.registers
    ensures Read(s, name, index) == Read(t, name, index)
    ensures Write(s, name, index, value).status == Write(t, name, index, value).status
    ensures Write(s, name, index, value).after.registers == Write(t, name, index, value).after.registers
  {
  }

  // ---------------------------------------------------------------------
  // Key order of the array table
  // ---------------------------------------------------------------------

  /**
   * `a < b` on names as the ordered table compares them: the first differing
   * character decides, and a proper prefix comes first.
   */
  predicate Below(a: string, b: string)
    decreases |a|
  {
    if |a| == 0 then |b| != 0
    else |b| != 0 && (a[0] < b[0] || (a[0] == b[0] && Below(a[1..], b[1..])))
  }

  lemma {:induction false} BelowAsymmetric(a: string, b: string)
    ensures !(Below(a, b) && Below(b, a))
    decreases |a|
  {
    if |a| != 0 && |b| != 0 && a[0] == b[0] {
      BelowAsymmetric(a[1..], b[1..]);
    }
  }

  lemma {:induction false} BelowTransitive(a: string, b: string, c: string)
    requires Below(a, b) && Below(b, c)
    ensures Below(a, c)
    decreases |a|
  {
    if |a| != 0 && a[0] == b[0] && b[0] == c[0] {
      BelowTransitive(a[1..], b[1..], c[1..]);
    }
  }

  lemma {:induction false} BelowTotal(a: string, b: string)
    ensures a == b || Below(a, b) || Below(b, a)
    decreases |a|
  {
    if |a| != 0 && |b| != 0 && a[0] == b[0] {
      BelowTotal(a[1..], b[1..]);
      if a[1..] == b[1..] {
        assert a == [a[0]] + a[1..] && b == [b[0]] + b[1..];
      }
    }
  }

  /** Every non-empty set of names has a least element. */
  lemma {:induction false} LeastNameExists(names: set<string>)
    requires names != {}
    ensures exists m :: m in names && forall k :: k in names && k != m ==> Below(m, k)
    decreases names
  {
    var x :| x in names;
    var rest := names - {x};
    if rest == {} {
      assert names == {x};
    } else {
      LeastNameExists(rest);
      var m :| m in rest && forall k :: k in rest && k != m ==> Below(m, k);
      BelowTotal(x, m);
      if Below(x, m) {
        forall k | k in names && k != x
          ensures Below(x, k)
        {
          if k != m {
            BelowTransitive(x, m, k);
          }
        }
      } else {
        assert forall k :: k in names && k != m ==> Below(m, k);
      }
    }
  }

  /** Strictly ascending by name. */
  predicate Ascending(arrays: seq<RegisterArray>)
  {
    forall i, j :: 0 <= i < j < |arrays| ==> Below(arrays[i].name, arrays[j].name)
  }

  /**
   * `arrays` is what GetAllRegisterArrays answers for the table `registers`:
   * one copy of every stored array and nothing else, in ascending key order.
   */
  ghost predicate IsListing(registers: map<string, RegisterArray>, arrays: seq<RegisterArray>)
  {
    && Ascending(arrays)
    && (forall a :: a in arrays ==> a.name in registers && registers[a.name] == a)
    && (forall name :: name in registers ==> registers[name] in arrays)
  }

  /** Two ascending sequences with the same elements are the same sequence. */
  lemma {:induction false} AscendingUnique(xs: seq<RegisterArray>, ys: seq<RegisterArray>)
    requires Ascending(xs) && Ascending(ys)
    requires forall a :: a in xs <==> a in ys
    ensures xs == ys
    decreases |xs|
  {
    assert xs != [] ==> xs[0] in ys;
    assert ys != [] ==> ys[0] in xs;
    if xs == [] || ys == [] {
    } else {
      var x, y := xs[0], ys[0];
      if x != y {
        assert x in ys;
        var j :| 0 <= j < |ys| && ys[j] == x;
        assert y in xs;
        var i :| 0 <= i < |xs| && xs[i] == y;
        assert Below(y.name, x.name) && Below(x.name, y.name);
        BelowAsymmetric(x.name, y.name);
      }
      forall a
        ensures a in xs[1..] <==> a in ys[1..]
      {
        if a in xs[1..] {
          var i :| 1 <= i < |xs| && xs[i] == a;
          BelowAsymmetric(x.name, a.name);
          assert a in ys && a != ys[0];
        }
        if a in ys[1..] {
          var j :| 1 <= j < |ys| && ys[j] == a;
          BelowAsymmetric(y.name, a.name);
          assert a in xs && a != xs[0];
        }
      }
      AscendingUnique(xs[1..], ys[1..]);
      assert xs == [x] + xs[1..] && ys == [y] + ys[1..];
    }
  }

  /** The listing of a table is unique: its order and contents are fixed. */
  lemma ListingUnique(registers: map<string, RegisterArray>, xs: seq<RegisterArray>, ys: seq<RegisterArray>)
    requires IsListing(registers, xs) && IsListing(registers, ys)
    ensures xs == ys
  {
    AscendingUnique(xs, ys);
  }
}
