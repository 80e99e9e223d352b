/**
  The descriptor registry `FrcStructDescDB`: a process-wide, append-only
  collection of struct descriptors keyed by type name.

  The source publishes descriptors on an intrusive linked list that pushes
  new nodes at its head, so iteration (and therefore `get`) visits the most
  recently published descriptor first. The model keeps the list as a
  sequence in that iteration order.
*/
module Registry {
  import opened Wrappers

  /**
    `FrcStructDesc`. The schema supplier is a zero-argument function whose
    result never changes, so it is modelled by the text it returns.
  */
  datatype StructDesc = StructDesc(schema: string, typeStr: string, size: nat)

  /** `contains` over a list of descriptors: does any carry the name `t`. */
  function ContainsIn(descs: seq<StructDesc>, t: string): (b: bool)
    ensures b <==> exists i :: 0 <= i < |descs| && descs[i].typeStr == t
  {
    if descs == [] then false
    else descs[0].typeStr == t || ContainsIn(descs[1..], t)
  }

  /** `get` over a list of descriptors: the first one, in iteration order, named `t`. */
  function GetIn(descs: seq<StructDesc>, t: string): (r: Option<StructDesc>)
    ensures r.Some? ==> r.value.typeStr == t
    ensures r.Some? ==> exists i :: 0 <= i < |descs| && descs[i] == r.value &&
                          forall j :: 0 <= j < i ==> descs[j].typeStr != t
    ensures r.None? ==> forall i :: 0 <= i < |descs| ==> descs[i].typeStr != t
  {
    if descs == [] then None
    else if descs[0].typeStr == t then Some(descs[0])
    else GetIn(descs[1..], t)
  }

  /** `contains(t)` holds exactly when `get(t)` finds a descriptor. */
  lemma ContainsIffGet(descs: seq<StructDesc>, t: string)
    ensures ContainsIn(descs, t) <==> GetIn(descs, t).Some?
  {
  }

  /** At most one descriptor per type name. */
  ghost predicate UniqueNames(descs: seq<StructDesc>)
  {
    forall i, j :: 0 <= i < j < |descs| ==> descs[i].typeStr != descs[j].typeStr
  }

  /** The registry contents after `add(d)`: unchanged if the name is known, else `d` published at the head. */
  function Added(descs: seq<StructDesc>, d: StructDesc): seq<StructDesc>
  {
    if ContainsIn(descs, d.typeStr) then descs else [d] + descs
  }

  /** `add` never creates a second descriptor for a name. */
  lemma AddKeepsNamesUnique(descs: seq<StructDesc>, d: StructDesc)
    ensures UniqueNames(descs) ==> UniqueNames(Added(descs, d))
    ensures |Added(descs, d)| <= |descs| + 1
  {
    if UniqueNames(descs) && !ContainsIn(descs, d.typeStr) {
      var r := [d] + descs;
      forall i, j | 0 <= i < j < |r| ensures r[i].typeStr != r[j].typeStr {
        if i == 0 {
          assert r[j] == descs[j - 1];
        }
      }
    }
  }

  /** Adding the same descriptor twice is the same as adding it once. */
  lemma AddIdempotent(descs: seq<StructDesc>, d: StructDesc)
    ensures Added(Added(descs, d), d) == Added(descs, d)
  {
    if !ContainsIn(descs, d.typeStr) {
      assert ([d] + descs)[0].typeStr == d.typeStr;
    }
  }

  /**
    First writer wins: once a name is registered, `add` of another
    descriptor with that name leaves `get` unchanged; a new name is found
    afterwards; lookups of other names are unaffected; nothing is removed.
  */
  lemma AddThenGet(descs: seq<StructDesc>, d: StructDesc, t: string)
    ensures ContainsIn(descs, d.typeStr) ==> GetIn(Added(descs, d), t) == GetIn(descs, t)
    ensures !ContainsIn(descs, d.typeStr) ==> GetIn(Added(descs, d), d.typeStr) == Some(d)
    ensures t != d.typeStr ==> GetIn(Added(descs, d), t) == GetIn(descs, t)
    ensures ContainsIn(descs, t) ==> ContainsIn(Added(descs, d), t)
  {
    if !ContainsIn(descs, d.typeStr) {
      var r := [d] + descs;
      assert r[1..] == descs;
      if ContainsIn(descs, t) {
        var i :| 0 <= i < |descs| && descs[i].typeStr == t;
        assert r[i + 1].typeStr == t;
      }
    }
  }

  /** The registry: one global list, modelled as an object whose field the operations reassign. */
  class DescDB {
    var descs: seq<StructDesc>

    constructor ()
      ensures descs == []
    {
      descs := [];
    }

    /** `FrcStructDescDB::contains`. */
    function Contains(t: string): (b: bool)
      reads this
      ensures b <==> exists i :: 0 <= i < |descs| && descs[i].typeStr == t
    {
      ContainsIn(descs, t)
    }

    /** `FrcStructDescDB::get`. */
    function Get(t: string): (r: Option<StructDesc>)
      reads this
      ensures r.Some? ==> r.value.typeStr == t && r.value in descs
      ensures r.Some? <==> Contains(t)
    {
      ContainsIffGet(descs, t);
      GetIn(descs, t)
    }

    /** `FrcStructDescDB::add`: publish `d` unless its name is already registered. */
    method Add(d: StructDesc)
      modifies this
      ensures descs == Added(old(descs), d)
      ensures UniqueNames(old(descs)) ==> UniqueNames(descs)
    {
      if ContainsIn(descs, d.typeStr) {
        return;
      }
      AddKeepsNamesUnique(descs, d);
      descs := [d] + descs;
    }

    /** `FrcStructDescDB::add_ref`: the same check, publishing a descriptor that already has static storage. */
    method AddRef(d: StructDesc)
      modifies this
      ensures descs == Added(old(descs), d)
      ensures UniqueNames(old(descs)) ==> UniqueNames(descs)
    {
      if ContainsIn(descs, d.typeStr) {
        return;
      }
      AddKeepsNamesUnique(descs, d);
      descs := [d] + descs;
    }

    /**
      The static `inventory::submit!` a derived struct expands to: it
      publishes unconditionally, without the `contains` check of `add`.
    */
    method Submit(d: StructDesc)
      modifies this
      ensures descs == [d] + old(descs)
      ensures Get(d.typeStr) == Some(d)
    {
      descs := [d] + descs;
    }
  }
}
