/** riak_array_realloc and the message vector every streaming decoder keeps. */
module Growth {

  /** riak_array_realloc: a cleared block of `newnum` slots that starts with the old ones. */
  method ArrayRealloc<T>(from: array<T>, oldnum: nat, newnum: nat, zero: T) returns (into: array<T>)
    requires oldnum <= from.Length && oldnum <= newnum
    ensures fresh(into) && into.Length == newnum
    ensures into[..oldnum] == from[..oldnum]
    ensures forall i :: oldnum <= i < newnum ==> into[i] == zero
  {
    into := new T[newnum](i => zero);
    for k := 0 to oldnum
      invariant into[..k] == from[..k]
      invariant forall i :: k <= i < newnum ==> into[i] == zero
    {
      into[k] := from[k];
    }
  }

  /** Make room for one more message, the n+1st, and store it. */
  method AppendMessage<M>(internal: array?<M>, n: nat, message: M, zero: M) returns (into: array<M>)
    requires n > 0 ==> internal != null && internal.Length == n
    ensures fresh(into) && into.Length == n + 1
    ensures into[..] == (if n > 0 then internal[..] else []) + [message]
  {
    if n > 0 {
      into := ArrayRealloc(internal, n, n + 1, zero);
    } else {
      into := new M[1](i => zero);
    }
    into[n] := message;
  }

  /** Grow an exactly filled vector, if there is one, and copy more elements in behind the old. */
  method AppendAll<T>(items: array?<T>, existing: nat, more: seq<T>, zero: T) returns (into: array<T>)
    requires if items == null then existing == 0 else items.Length == existing
    ensures fresh(into) && into[..] == (if items == null then [] else items[..]) + more
  {
    var additional := |more|;
    if items != null {
      into := ArrayRealloc(items, existing, additional + existing, zero);
    } else {
      into := new T[additional](i => zero);
    }
    ghost var before := into[..existing];
    for i := 0 to additional
      invariant into[..existing + i] == before + more[..i]
    {
      into[i + existing] := more[i];
    }
  }
}
