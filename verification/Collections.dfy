/** Optional values, and counting the occurrences of an element. */
module Collections {
  datatype Option<T> = None | Some(value: T)

  function CountOf<T(==)>(s: seq<T>, x: T): nat {
    if s == [] then 0 else CountOf(s[1..], x) + (if s[0] == x then 1 else 0)
  }

  lemma {:induction false} CountPositive<T>(s: seq<T>, x: T)
    ensures CountOf(s, x) > 0 <==> x in s
  {
    if s != [] {
      CountPositive(s[1..], x);
    }
  }

  lemma {:induction false} CountSnoc<T>(s: seq<T>, last: T, x: T)
    ensures CountOf(s + [last], x) == CountOf(s, x) + (if last == x then 1 else 0)
  {
    if s == [] {
      assert s + [last] == [last];
    } else {
      assert (s + [last])[1..] == s[1..] + [last];
      CountSnoc(s[1..], last, x);
    }
  }
}
