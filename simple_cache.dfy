/**
 * `SimpleCache<TFrom, TTo>` (Misc/SimpleCache.cs): remembers the last value
 * a factory produced and the generation of the argument it was produced
 * from, and calls the factory again only when that generation changes.
 * The factory and the `Generation` property of the argument are given as
 * functions; disposing of the replaced value is recorded in a ghost list.
 */
module Cache {
  import opened Wrappers

  class SimpleCache<F, T> {
    const factory: F -> T
    const generationOf: F -> int
    var generation: int
    /** `None` while `lastResult` still holds `default(TTo)`. */
    var lastResult: Option<T>
    /** Results replaced by a newer one, in order (each is disposed when it is `IDisposable`). */
    ghost var disposed: seq<T>
    ghost var factoryCalls: nat

    ghost predicate Valid()
      reads this
    {
      (factoryCalls == 0 <==> lastResult.None?)
      && (factoryCalls == 0 ==> generation == -1)
    }

    constructor(factory: F -> T, generationOf: F -> int)
      ensures Valid()
      ensures this.factory == factory && this.generationOf == generationOf
      ensures generation == -1 && lastResult == None
      ensures factoryCalls == 0 && disposed == []
    {
      this.factory := factory;
      this.generationOf := generationOf;
      generation := -1;
      lastResult := None;
      disposed := [];
      factoryCalls := 0;
    }

    method GetValue(from: F) returns (r: Option<T>)
      requires Valid()
      modifies this
      ensures Valid()
      ensures generation == generationOf(from)
      ensures r == lastResult
      ensures old(generation) != generationOf(from) ==>
        r == Some(factory(from))
        && factoryCalls == old(factoryCalls) + 1
        && disposed == old(disposed) + (if old(lastResult).Some? then [old(lastResult).value] else [])
      ensures old(generation) == generationOf(from) ==>
        r == old(lastResult) && factoryCalls == old(factoryCalls) && disposed == old(disposed)
    {
      if generation != generationOf(from) {
        if lastResult.Some? {
          disposed := disposed + [lastResult.value];
        }
        lastResult := Some(factory(from));
        generation := generationOf(from);
        factoryCalls := factoryCalls + 1;
      }
      r := lastResult;
    }
  }
}
