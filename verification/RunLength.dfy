/** Packets, as both run-length coders produce them: items spelled out, or one item repeated. */
module RunLength {
  import opened Prelude

  datatype Packet<T> = Literal(items: seq<T>) | Repeat(count: nat, item: T) {
    function Items(): (r: seq<T>)
      ensures |r| == Length()
    {
      match this
      case Literal(items) => items
      case Repeat(count, item) => seq(count, _ => item)
    }

    function Length(): nat {
      match this
      case Literal(items) => |items|
      case Repeat(count, item) => count
    }
  }

  function Expand<T>(ps: seq<Packet<T>>): seq<T> {
    if |ps| == 0 then [] else ps[0].Items() + Expand(ps[1..])
  }

  lemma {:induction false} ExpandSnoc<T>(ps: seq<Packet<T>>, p: Packet<T>)
    ensures Expand(ps + [p]) == Expand(ps) + p.Items()
  {
    hide Packet<T>.Items;
    if |ps| == 0 {
      assert ps + [p] == [p] && [p][1..] == [];
      assert Expand([p]) == p.Items() + Expand([]);
    } else {
      ExpandSnoc(ps[1..], p);
      assert (ps + [p])[1..] == ps[1..] + [p];
      ConcatAssociates(ps[0].Items(), Expand(ps[1..]), p.Items());
    }
  }
}
