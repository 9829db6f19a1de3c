/**
 * The register service object: two tables keyed by array name, updated in
 * place by the requests.  Each request handler is proved against the
 * corresponding function of module RegisterStore, so everything proved there
 * about the requests holds of this object.
 */
module RegisterServer {
  import opened RegisterStore

  class RegisterServiceImpl {
    /** The arrays, by name. */
    var registers: map<string, RegisterArray>
    /** The indices already written in each array, by array name. */
    var writtenIndices: map<string, set<u32>>

    /** The two tables as one store value. */
    function State(): Store
      reads this
    {
      Store(registers, writtenIndices)
    }

    /** The store invariant, kept by every request. */
    ghost predicate Valid()
      reads this
    {
      Invariant(State())
    }

    constructor ()
      ensures Valid() && State() == Empty
    {
      registers := map[];
      writtenIndices := map[];
    }

    /**
     * Appends to `response` a copy of the array stored under `name`, its
     * items copied one by one; an absent name appends nothing.
     */
    method BuildRegisterArrayResponse(response: seq<RegisterArray>, name: string)
      returns (response': seq<RegisterArray>)
      ensures name !in registers ==> response' == response
      ensures name in registers ==> response' == response + [registers[name]]
    {
      if name !in registers {
        return response;
      }
      var current := registers[name];
      var items: seq<u32> := [];
      var i := 0;
      while i < |current.items|
        invariant 0 <= i <= |current.items|
        invariant items == current.items[..i]
      {
        items := items + [current.items[i]];
        i := i + 1;
      }
      assert items == current.items;
      response' := response + [RegisterArray(current.name, current.capacity, current.size, items)];
    }

    /**
     * Appends one copy of every stored array to `response`, in ascending
     * order of name; never fails.  Reads the tables only.
     */
    method GetAllRegisterArrays(response: seq<RegisterArray>)
      returns (status: Status, response': seq<RegisterArray>)
      requires Valid()
      ensures status == Ok
      ensures |response| <= |response'| && response'[..|response|] == response
      ensures IsListing(registers, response'[|response|..])
    {
      var remaining := registers.Keys;
      ghost var listed: seq<RegisterArray> := [];
      response' := response;
      while remaining != {}
        invariant remaining <= registers.Keys
        invariant response' == response + listed
        invariant Ascending(listed)
        invariant forall a :: a in listed ==> a.name in registers && registers[a.name] == a
        invariant forall k :: k in registers && k !in remaining ==> registers[k] in listed
        invariant forall a, k :: a in listed && k in remaining ==> Below(a.name, k)
        decreases remaining
      {
        LeastNameExists(remaining);
        var key :| key in remaining && forall k :: k in remaining && k != key ==> Below(key, k);
        response' := BuildRegisterArrayResponse(response', key);
        listed := listed + [registers[key]];
        remaining := remaining - {key};
      }
      status := Ok;
      assert response'[|response|..] == listed;
    }

    /**
     * Appends a copy of the array stored under `name` to `response`, or
     * answers NotFound and leaves `response` as it was.  Reads the tables only.
     */
    method GetRegisterArray(response: seq<RegisterArray>, name: string)
      returns (status: Status, response': seq<RegisterArray>)
      ensures status in {Ok, NotFound}
      ensures status == NotFound <==> name !in registers
      ensures status == NotFound ==> response' == response
      ensures status == Ok ==> response' == response + [registers[name]]
    {
      if name !in registers {
        return NotFound, response;
      }
      status := Ok;
      response' := BuildRegisterArrayResponse(response, name);
    }

    /** CreateRegisterArray: see RegisterStore.Create. */
    method CreateRegisterArray(name: string, capacity: u32) returns (status: Status)
      requires Valid()
      modifies this
      ensures Valid()
      ensures Step(status, State()) == Create(old(State()), name, capacity)
    {
      if name in registers {
        return AlreadyExists;
      }
      var items: seq<u32> := [];
      var i := 0;
      while i < capacity
        invariant 0 <= i <= capacity
        invariant |items| == i
        invariant forall j :: 0 <= j < i ==> items[j] == 0
      {
        items := items + [0];
        i := i + 1;
      }
      var created := RegisterArray(name, capacity, 0, items);
      assert created == Zeroed(name, capacity);
      registers := registers[name := created];
      writtenIndices := writtenIndices[name := {}];
      status := Ok;
    }

    /** DeleteRegisterArray: see RegisterStore.Delete. */
    method DeleteRegisterArray(name: string) returns (status: Status)
      requires Valid()
      modifies this
      ensures Valid()
      ensures Step(status, State()) == Delete(old(State()), name)
    {
      if name !in registers {
        return NotFound;
      }
      registers := registers - {name};
      writtenIndices := writtenIndices - {name};
      status := Ok;
    }

    /** ReadValue: see RegisterStore.Read.  Reads the tables only. */
    method ReadValue(name: string, index: u32) returns (status: Status, value: u32)
      requires Valid()
      ensures ReadReply(status, value) == Read(State(), name, index)
    {
      if name !in registers {
        return NotFound, 0;
      }
      var r := registers[name];
      if index >= r.capacity {
        return OutOfRange, 0;
      }
      status, value := Ok, r.items[index];
    }

    /**
     * WriteValue: see RegisterStore.Write.  The written-index set is looked up
     * without a check of its own; the invariant that both tables have the
     * same names is what makes that lookup safe.  `size` is stored twice, the
     * second time only for a new index and with the same value, which the
     * postcondition shows amounts to a single increment.
     */
    method WriteValue(name: string, index: u32, value: u32) returns (status: Status)
      requires Valid()
      modifies this
      ensures Valid()
      ensures Step(status, State()) == Write(old(State()), name, index, value)
    {
      if name !in registers {
        return NotFound;
      }
      var reg := registers[name];
      var capacity := reg.capacity;
      var size := reg.size;
      if index >= capacity {
        return OutOfRange;
      }
      reg := reg.(items := reg.items[index := value]);
      reg := reg.(size := Inc(size));
      var written := writtenIndices[name];
      if index !in written {
        writtenIndices := writtenIndices[name := written + {index}];
        reg := reg.(size := Inc(size));
      } else {
        assert written + {index} == written;
      }
      registers := registers[name := reg];
      status := Ok;
    }
  }

  /**
   * Two writes to one index, then a read: the read returns the second value,
   * one index is recorded as written and `size` has moved on twice.
   */
  method RepeatedWriteScenario()
  {
    var server := new RegisterServiceImpl();
    var status := server.CreateRegisterArray("test", 16);
    status := server.WriteValue("test", 0, 100);
    status := server.WriteValue("test", 0, 200);
    assert status == Ok;
    var value;
    status, value := server.ReadValue("test", 0);
    assert status == Ok && value == 200;
    assert server.writtenIndices["test"] == {0};
    assert server.registers["test"].size == 2;
  }

  /** A write past the capacity fails and leaves the array as created. */
  method OutOfRangeScenario()
  {
    var server := new RegisterServiceImpl();
    var status := server.CreateRegisterArray("t", 10);
    status := server.WriteValue("t", 18, 366);
    assert status == OutOfRange;
    status := server.WriteValue("t", 10, 366);
    assert status == OutOfRange;
    assert server.registers["t"] == Zeroed("t", 10) && server.writtenIndices["t"] == {};
  }

  /**
   * A second create of a live name fails; after a delete the name reads as
   * absent and can be created again, fresh.
   */
  method DeleteScenario()
  {
    var server := new RegisterServiceImpl();
    var status := server.CreateRegisterArray("test", 16);
    status := server.WriteValue("test", 3, 7);
    status := server.CreateRegisterArray("test", 32);
    assert status == AlreadyExists && server.registers["test"].capacity == 16;
    status := server.DeleteRegisterArray("test");
    assert status == Ok;
    var arrays;
    status, arrays := server.GetRegisterArray([], "test");
    assert status == NotFound && arrays == [];
    status := server.DeleteRegisterArray("test");
    assert status == NotFound;
    status := server.CreateRegisterArray("test", 16);
    assert status == Ok && server.registers["test"] == Zeroed("test", 16);
  }

  /** Listing two fresh arrays gives both, zeroed, in name order. */
  method ListingScenario()
  {
    var server := new RegisterServiceImpl();
    var status := server.CreateRegisterArray("b", 32);
    status := server.CreateRegisterArray("a", 16);
    var arrays;
    status, arrays := server.GetAllRegisterArrays([]);
    var expected := [Zeroed("a", 16), Zeroed("b", 32)];
    assert IsListing(server.registers, expected);
    ListingUnique(server.registers, arrays, expected);
    assert arrays == expected;
  }
}
