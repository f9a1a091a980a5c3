/** A resource bundle: a named, versioned set of resource references
    with a running total of their sizes (crates/core/src/resource/bundle.rs). */
module ResourceBundles {
  import opened Common

  const U64_MAX: int := 0xFFFF_FFFF_FFFF_FFFF
  type u64 = x: int | 0 <= x <= U64_MAX

  /** A reference to one downloaded resource file: its version, its size
      in bytes, the xxHash3 of its contents and its identifier. */
  datatype ResourceReference = ResourceReference(version: u64, size: u64, xxhash: u64, id: string)

  /** The sum of the sizes of the references in a map. */
  ghost function Total(resources: map<string, ResourceReference>): nat
    decreases |resources|
  {
    if resources == map[] then 0
    else
      var name :| name in resources;
      resources[name].size + Total(resources - {name})
  }

  /** The total can be taken apart at any entry. */
  lemma {:induction false} TotalRemove(resources: map<string, ResourceReference>, name: string)
    requires name in resources
    ensures Total(resources) == resources[name].size + Total(resources - {name})
    decreases |resources|
  {
    var chosen :| chosen in resources && Total(resources) == resources[chosen].size + Total(resources - {chosen});
    if chosen != name {
      assert resources - {chosen} - {name} == resources - {name} - {chosen};
      TotalRemove(resources - {chosen}, name);
      TotalRemove(resources - {name}, chosen);
    }
  }

  /** Storing a reference under a name: the total gains the new size and
      loses the size of the reference it replaces, if any. */
  lemma TotalUpdate(resources: map<string, ResourceReference>, name: string, resource: ResourceReference)
    ensures Total(resources[name := resource]) + (if name in resources then resources[name].size else 0)
         == Total(resources) + resource.size
  {
    var updated := resources[name := resource];
    TotalRemove(updated, name);
    assert updated - {name} == resources - {name};
    if name in resources {
      TotalRemove(resources, name);
    } else {
      assert resources - {name} == resources;
    }
  }

  /** `ResourceBundle`: `id` and `version` are fixed at construction;
      `insert` and `remove` update `resources` and `size` in place. */
  class ResourceBundle {
    const id: string
    const version: u64
    var size: nat
    var resources: map<string, ResourceReference>

    /** The running size never falls below the sizes actually held, so a
        removal never takes it below zero. Every bundle built by `new`,
        `insert` and `remove` keeps this; a bundle read back by
        deserialisation carries whatever size it was saved with and need not,
        and a removal from such a bundle can take its `u64` size below zero. */
    ghost predicate Valid()
      reads this
    {
      Total(resources) <= size
    }

    /** `ResourceBundle::new`: size 0 and no resources. */
    constructor (id: string, version: u64)
      ensures this.id == id && this.version == version
      ensures size == 0 && resources == map[]
      ensures Valid()
    {
      this.id := id;
      this.version := version;
      size := 0;
      resources := map[];
    }

    /** `get`: the reference stored under the name, if any. */
    function Get(name: string): (r: Option<ResourceReference>)
      reads this
      ensures r.Some? <==> name in resources
      ensures r.Some? ==> r.value == resources[name]
    {
      if name in resources then Some(resources[name]) else None
    }

    /** `insert`: stores the reference under the name and adds its size to
        the total, also when it replaces an entry (whose size stays counted). */
    method Insert(name: string, resource: ResourceReference)
      requires Valid()
      modifies this
      ensures resources == old(resources)[name := resource]
      ensures size == old(size) + resource.size
      ensures Valid()
      ensures Get(name) == Some(resource)
      ensures Total(resources)
           == Total(old(resources)) + resource.size - (if name in old(resources) then old(resources)[name].size else 0)
    {
      TotalUpdate(resources, name, resource);
      size := size + resource.size;
      resources := resources[name := resource];
    }

    /** `remove`: an absent name gives None and changes nothing; a present
        one is deleted, its size subtracted, and its reference returned. */
    method Remove(name: string) returns (removed: Option<ResourceReference>)
      requires Valid()
      modifies this
      ensures name !in old(resources) ==> removed == None && resources == old(resources) && size == old(size)
      ensures name in old(resources) ==>
        && removed == Some(old(resources)[name])
        && resources == old(resources) - {name}
        && size == old(size) - old(resources)[name].size
      ensures Valid()
      ensures Get(name) == None
    {
      if name !in resources {
        return None;
      }
      var resource := resources[name];
      TotalRemove(resources, name);
      resources := resources - {name};
      size := size - resource.size;
      removed := Some(resource);
    }
  }

  /** Inserting and then removing a name that was absent restores the
      bundle's contents and size. */
  method InsertThenRemove(bundle: ResourceBundle, name: string, resource: ResourceReference)
    returns (removed: Option<ResourceReference>)
    requires bundle.Valid() && name !in bundle.resources
    modifies bundle
    ensures removed == Some(resource)
    ensures bundle.resources == old(bundle.resources) && bundle.size == old(bundle.size)
    ensures bundle.Valid()
  {
    bundle.Insert(name, resource);
    removed := bundle.Remove(name);
    assert bundle.resources == old(bundle.resources);
  }
}
