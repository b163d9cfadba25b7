/** `registerCache` of packages/utils/src/cache.ts: named slots in one shared
    record, each read through a descriptor whose `value` reuses a truthy slot
    and otherwise calls `refresh` with the arguments it last saw. The setter
    is a parameter; a rejected promise is an `Err`. Cached values are JSON
    values, so that JavaScript truthiness applies to them. */
module Cache {
  import opened Wrappers
  import opened Json

  /** The arguments a setter is called with. */
  type Args = seq<Json>

  /** A slot counts as cached only when it holds a truthy value. */
  predicate Hit(slots: map<string, Json>, name: string)
  {
    name in slots && Truthy(slots[name])
  }

  /** The slots after a refresh settles: a resolved setter writes its value,
      a rejected one writes nothing. */
  function Refreshed(slots: map<string, Json>, name: string, outcome: Result<Json>): (s: map<string, Json>)
    ensures outcome.Ok? ==> name in s && s[name] == outcome.value
    ensures outcome.Err? ==> s == slots
    ensures forall n :: n != name ==> (n in s <==> n in slots)
    ensures forall n :: n != name && n in slots ==> s[n] == slots[n]
  {
    if outcome.Ok? then slots[name := outcome.value] else slots
  }

  /** The module-level `cache` record every descriptor writes into. */
  class CacheStore {
    var slots: map<string, Json>

    constructor ()
      ensures slots == map[]
    {
      slots := map[];
    }
  }

  /** What `registerCache` returns, with the closure state it captures. */
  class CacheDescriptor {
    const store: CacheStore
    const name: string
    const setter: Args -> Result<Json>
    var lastArguments: Args
    /** How many times the setter has been called through this descriptor. */
    ghost var calls: nat

    /** `registerCache(name, setter, defaultArguments)`: the last arguments
        start as the defaults, or `[]` when none are given. */
    constructor (store: CacheStore, name: string, setter: Args -> Result<Json>, defaultArguments: Option<Args>)
      ensures this.store == store && this.name == name && this.setter == setter
      ensures lastArguments == if defaultArguments.Some? then defaultArguments.value else []
      ensures calls == 0
    {
      this.store := store;
      this.name := name;
      this.setter := setter;
      lastArguments := if defaultArguments.Some? then defaultArguments.value else [];
      calls := 0;
    }

    /** `refresh(...args)`: always calls the setter, remembers the arguments,
        stores a resolved value under the name and returns the outcome. */
    method Refresh(args: Args) returns (r: Result<Json>)
      modifies this, store
      ensures r == setter(args)
      ensures lastArguments == args
      ensures store.slots == Refreshed(old(store.slots), name, r)
      ensures calls == old(calls) + 1
    {
      lastArguments := args;
      r := setter(args);
      calls := calls + 1;
      if r.Ok? {
        store.slots := store.slots[name := r.value];
      }
    }

    /** The `value` getter: a truthy slot is returned without calling the
        setter; anything else is refreshed with the last arguments. */
    method Value() returns (r: Result<Json>)
      modifies this, store
      ensures Hit(old(store.slots), name) ==> r == Ok(old(store.slots)[name]) && store.slots == old(store.slots)
      ensures !Hit(old(store.slots), name) ==>
                r == setter(old(lastArguments)) && store.slots == Refreshed(old(store.slots), name, r)
      ensures lastArguments == old(lastArguments)
      ensures calls == if Hit(old(store.slots), name) then old(calls) else old(calls) + 1
    {
      if !(name in store.slots && Truthy(store.slots[name])) {
        r := Refresh(lastArguments);
      } else {
        r := Ok(store.slots[name]);
      }
    }
  }

  // ---------------------------------------------------------------------------
  // Properties

  /** After a refresh that resolved to a truthy value the slot is a hit, and a
      falsy or rejected outcome leaves it a miss if it was one. */
  lemma RefreshedHit(slots: map<string, Json>, name: string, outcome: Result<Json>)
    ensures outcome.Ok? ==> (Hit(Refreshed(slots, name, outcome), name) <==> Truthy(outcome.value))
    ensures outcome.Err? ==> (Hit(Refreshed(slots, name, outcome), name) <==> Hit(slots, name))
    ensures forall n :: n != name ==> (Hit(Refreshed(slots, name, outcome), n) <==> Hit(slots, n))
  {
  }

  /** Two registrations under one name share a slot: a truthy value refreshed
      through the first is what the second reads, without calling its own
      setter. */
  method SameNameSharesSlot(store: CacheStore, name: string, first: Args -> Result<Json>,
                            second: Args -> Result<Json>, args: Args) returns (r: Result<Json>)
    requires first(args).Ok? && Truthy(first(args).value)
    modifies store
    ensures r == first(args)
  {
    var a := new CacheDescriptor(store, name, first, None);
    var b := new CacheDescriptor(store, name, second, None);
    var x := a.Refresh(args);
    r := b.Value();
  }

  /** A falsy result is never treated as cached: every read calls the setter
      again with the same arguments, so two reads make two calls. */
  method FalsyIsRecomputed(d: CacheDescriptor) returns (r1: Result<Json>, r2: Result<Json>)
    requires d.setter(d.lastArguments).Ok? && !Truthy(d.setter(d.lastArguments).value)
    requires !Hit(d.store.slots, d.name)
    modifies d, d.store
    ensures r1 == r2 == d.setter(old(d.lastArguments))
    ensures d.calls == old(d.calls) + 2
  {
    r1 := d.Value();
    r2 := d.Value();
  }

  /** A truthy value read once is read again unchanged, whatever the setter
      would now return, and the second read makes no call: the two reads call
      the setter once at most, and only when the slot was not already a hit. */
  method TruthyIsReused(d: CacheDescriptor) returns (r1: Result<Json>, r2: Result<Json>)
    modifies d, d.store
    ensures r1.Ok? && Truthy(r1.value) ==> r2 == r1
    ensures r1.Ok? && Truthy(r1.value) ==>
              d.calls == if Hit(old(d.store.slots), d.name) then old(d.calls) else old(d.calls) + 1
  {
    r1 := d.Value();
    r2 := d.Value();
  }
}
