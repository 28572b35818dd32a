/** Dictionaries that keep the order in which their keys were first set. */
module OrderedDict {
  import opened Octets

  datatype Dict<V> = Dict(items: seq<(string, V)>) {
    /** Every key is there once. */
    ghost predicate Valid() {
      forall i, j :: 0 <= i < j < |items| ==> items[i].0 != items[j].0
    }

    function Keys(): (k: seq<string>)
      ensures |k| == |items|
    {
      seq(|items|, i requires 0 <= i < |items| => items[i].0)
    }

    function Find(k: string): (i: Option<nat>)
      ensures i.Some? ==> i.value < |items| && items[i.value].0 == k
      ensures i.None? <==> k !in Keys()
    {
      FindFrom(k, 0)
    }

    function FindFrom(k: string, from: nat): (i: Option<nat>)
      requires from <= |items|
      ensures i.Some? ==> from <= i.value < |items| && items[i.value].0 == k
      ensures i.None? <==> k !in Keys()[from..]
      decreases |items| - from
    {
      if from == |items| then None
      else
        assert Keys()[from..] == [items[from].0] + Keys()[from + 1..];
        if items[from].0 == k then Some(from) else FindFrom(k, from + 1)
    }

    predicate Has(k: string) {
      k in Keys()
    }

    function Get(k: string): V
      requires Has(k)
    {
      items[Find(k).value].1
    }

    /** `d[k] = v`: in place when the key is there, at the end when it is not. */
    function Set(k: string, v: V): (d: Dict<V>)
      ensures Valid() ==> d.Valid()
    {
      match Find(k)
      case Some(i) => Dict(items[i := (k, v)])
      case None =>
        assert forall i :: 0 <= i < |items| ==> Keys()[i] == items[i].0;
        Dict(items + [(k, v)])
    }

    /** `del d[k]` */
    function Remove(k: string): (d: Dict<V>)
      ensures Valid() ==> d.Valid()
    {
      match Find(k)
      case Some(i) => Dict(items[..i] + items[i + 1..])
      case None => this
    }

    /** The entry a key is given at its place. */
    lemma GetAt(i: nat)
      requires Valid() && i < |items|
      ensures Has(items[i].0) && Find(items[i].0) == Some(i) && Get(items[i].0) == items[i].1
    {
      assert Keys()[i] == items[i].0;
    }

    lemma SetKeys(k: string, v: V)
      ensures Set(k, v).Keys() == if Has(k) then Keys() else Keys() + [k]
    {
    }

    /** Setting a key changes that key and no other. */
    lemma SetGets(k: string, v: V)
      requires Valid()
      ensures Set(k, v).Has(k) && Set(k, v).Get(k) == v
      ensures forall h :: h != k ==>
                (Set(k, v).Has(h) <==> Has(h)) && (Has(h) ==> Set(k, v).Get(h) == Get(h))
    {
      var d := Set(k, v);
      SetKeys(k, v);
      var at := if Has(k) then Find(k).value else |items|;
      d.GetAt(at);
      forall h | h != k ensures (d.Has(h) <==> Has(h)) && (Has(h) ==> d.Get(h) == Get(h)) {
        if Has(h) {
          d.GetAt(Find(h).value);
        }
      }
    }

    lemma RemoveGets(k: string)
      requires Valid()
      ensures !Remove(k).Has(k)
      ensures forall h :: h != k ==>
                (Remove(k).Has(h) <==> Has(h)) && (Has(h) ==> Remove(k).Get(h) == Get(h))
    {
      if Has(k) && Remove(k).Has(k) {
        RemovedFrom(k, Remove(k).Find(k).value);
      }
      forall h | h != k ensures (Remove(k).Has(h) <==> Has(h)) && (Has(h) ==> Remove(k).Get(h) == Get(h)) {
        RemoveKeeps(k, h);
      }
    }

    lemma RemovedFrom(k: string, j: nat)
      requires Valid() && Has(k) && j < |Remove(k).items|
      ensures Remove(k).items[j].0 != k && Has(Remove(k).items[j].0)
    {
      var i := if j < Find(k).value then j else j + 1;
      assert Remove(k).items[j] == items[i];
      GetAt(i);
    }

    lemma RemoveKeeps(k: string, h: string)
      requires Valid() && h != k
      ensures (Remove(k).Has(h) <==> Has(h)) && (Has(h) ==> Remove(k).Get(h) == Get(h))
    {
      if Has(k) && Has(h) {
        var i, at := Find(h).value, Find(k).value;
        Remove(k).GetAt(if i < at then i else i - 1);
      } else if Has(k) && Remove(k).Has(h) {
        RemovedFrom(k, Remove(k).Find(h).value);
      }
    }

    lemma SetTwice(k: string, v: V, w: V)
      requires Valid()
      ensures Set(k, v).Set(k, w) == Set(k, w)
    {
      var d := Set(k, v);
      SetKeys(k, v);
      var at := if Has(k) then Find(k).value else |items|;
      d.GetAt(at);
    }
  }
}
