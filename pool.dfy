/** pysat's IDPool: a variable numbering that hands out 1, 2, 3, ... to objects in order of first request. */
module Pool {
  import opened Wrappers

  /** obj2id and id2obj are mutually inverse and number the objects 1..top without gaps. */
  ghost predicate Bijection<K>(obj2id: map<K, nat>, id2obj: map<nat, K>, top: nat)
  {
    && (forall k | k in obj2id :: 1 <= obj2id[k] <= top && obj2id[k] in id2obj && id2obj[obj2id[k]] == k)
    && (forall i | i in id2obj :: 1 <= i <= top && id2obj[i] in obj2id && obj2id[id2obj[i]] == i)
    && (forall i | 1 <= i <= top :: i in id2obj)
  }

  /** obj(vid): the object numbered vid, or None. */
  function ObjOf<K>(id2obj: map<nat, K>, vid: int): Option<K>
  {
    if vid >= 0 && vid as nat in id2obj then Some(id2obj[vid as nat]) else None
  }

  /** m agrees with every number m0 gave out, and may have given out more. */
  ghost predicate Extends<K>(m0: map<K, nat>, m: map<K, nat>)
  {
    forall k | k in m0 :: k in m && m[k] == m0[k]
  }

  class IdPool<K(==)> {
    var top: nat
    var obj2id: map<K, nat>
    var id2obj: map<nat, K>

    ghost predicate Valid()
      reads this
    {
      Bijection(obj2id, id2obj, top)
    }

    /** IDPool(): nothing numbered yet. */
    constructor ()
      ensures Valid() && top == 0 && obj2id == map[] && id2obj == map[]
    {
      top := 0;
      obj2id := map[];
      id2obj := map[];
    }

    /** id(obj): the number of obj, giving it the next free number on first request. */
    method Id(k: K) returns (vid: nat)
      requires Valid()
      modifies this
      ensures Valid() && Extends(old(obj2id), obj2id)
      ensures k in obj2id && vid == obj2id[k]
      ensures old(k in obj2id) ==> top == old(top) && obj2id == old(obj2id) && id2obj == old(id2obj)
      ensures old(k !in obj2id) ==> top == old(top) + 1 && obj2id == old(obj2id)[k := top] && id2obj == old(id2obj)[top := k]
    {
      if k in obj2id {
        return obj2id[k];
      }
      top := top + 1;
      obj2id := obj2id[k := top];
      id2obj := id2obj[top := k];
      vid := top;
    }

    /** obj(vid): the object numbered vid; numbering it again gives vid back. */
    function Obj(vid: int): (r: Option<K>)
      reads this
      requires Valid()
      ensures r.Some? <==> 1 <= vid <= top
      ensures r.Some? ==> r.value in obj2id && obj2id[r.value] == vid
    {
      ObjOf(id2obj, vid)
    }

    /** Looking up the number of a numbered object gives the object back. */
    lemma ObjId(k: K)
      requires Valid() && k in obj2id
      ensures Obj(obj2id[k]) == Some(k)
    {
    }
  }
}
