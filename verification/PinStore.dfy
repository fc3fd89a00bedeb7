/** The host-side record of accepted descriptor hashes, kept in memory. */
module PinStores {
  import opened Results

  class InMemoryPinStore {
    var pins: map<string, string>
    var catalogHash: Option<string>

    constructor ()
      ensures pins == map[] && catalogHash == None
    {
      pins := map[];
      catalogHash := None;
    }

    function Get(toolName: string): Option<string>
      reads this
    {
      if toolName in pins then Some(pins[toolName]) else None
    }

    method Set(toolName: string, descriptorHash: string)
      modifies this`pins
      ensures pins == old(pins)[toolName := descriptorHash]
    {
      pins := pins[toolName := descriptorHash];
    }

    method Remove(toolName: string)
      modifies this`pins
      ensures pins == old(pins) - {toolName}
    {
      pins := pins - {toolName};
    }

    /** All pinned names, each once, in no particular order. */
    method PinnedNames() returns (names: seq<string>)
      ensures multiset(names) == multiset(pins.Keys)
    {
      names := [];
      var rest := pins.Keys;
      while rest != {}
        invariant rest <= pins.Keys
        invariant multiset(names) + multiset(rest) == multiset(pins.Keys)
        decreases rest
      {
        var name :| name in rest;
        names := names + [name];
        rest := rest - {name};
      }
    }

    method SetCatalogHash(hash: string)
      modifies this`catalogHash
      ensures catalogHash == Some(hash)
    {
      catalogHash := Some(hash);
    }
  }
}
