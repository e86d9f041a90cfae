/**
 * The process-wide state of shared/shared.go: the services known to this
 * node and the three flag maps. The Go maps map names to `true` and nothing
 * else, so each flag map is a set of names here.
 */
module Shared {
  import opened Types

  class Store {
    var services: map<string, Service>
    var serviceChanged: set<string>
    var serviceOutdated: set<string>
    var badServiceFiles: set<string>

    /** Every service is stored under its own name; flags name stored services. */
    ghost predicate Valid()
      reads this
    {
      && (forall n :: n in services ==> services[n].name == n)
      && serviceChanged <= services.Keys
      && serviceOutdated <= services.Keys
    }

    constructor ()
      ensures Valid()
      ensures services == map[] && serviceChanged == {} && serviceOutdated == {} && badServiceFiles == {}
    {
      services := map[];
      serviceChanged := {};
      serviceOutdated := {};
      badServiceFiles := {};
    }
  }
}
