/** `COWList` (cow.go) as one goroutine sees it. `CowMachine` models it under any interleaving. */
module COW {
  import opened Runtime

  class COWList<T(0)> {
    /** The published list. It is replaced, never written to. */
    var v: array<T>

    ghost function Contents(): seq<T>
      reads this, v
    {
      v[..]
    }

    constructor ()
      ensures fresh(v) && Contents() == []
    {
      v := new T[0];
    }

    /** Publishes a fresh list with the item behind the others; whoever holds the old list still sees it unchanged. */
    method Append(i: T) returns (index: nat)
      modifies this
      ensures fresh(v) && Contents() == old(Contents()) + [i]
      ensures index == |old(Contents())| && old(v)[..] == old(v[..])
    {
      var list := v;
      var newLen := list.Length + 1;
      var newList := new T[newLen];
      for k := 0 to list.Length
        invariant newList[..k] == list[..k]
        invariant list[..] == old(v[..])
      {
        newList[k] := list[k];
      }
      newList[newLen - 1] := i;
      assert newList[..] == newList[..newLen - 1] + [i];
      v := newList;
      index := newLen - 1;
    }

    method Get(index: int) returns (r: Call<T>)
      ensures r == if 0 <= index < |Contents()| then Value(Contents()[index]) else Panic
    {
      var list := v;
      if !(0 <= index < list.Length) {
        return Panic;
      }
      return Value(list[index]);
    }
  }
}
