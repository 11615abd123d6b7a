/** Helpers shared by the model: an Option type, JavaScript truthiness of an
    optional string, and the operations of an insertion-ordered JS `Set`,
    kept as a sequence without duplicates. */
module Common {

  datatype Option<+T> = None | Some(value: T)

  /** A JS value that is a string when present; `undefined`, `null` and `""`
      are falsy. */
  predicate IsTruthy(o: Option<string>)
  {
    o.Some? && o.value != ""
  }

  /** The JS expression `o || fallback`. */
  function OrElse(o: Option<string>, fallback: string): string
  {
    if IsTruthy(o) then o.value else fallback
  }

  predicate NoDup<T(==)>(s: seq<T>)
  {
    forall i, j | 0 <= i < j < |s| :: s[i] != s[j]
  }

  /** `set.add(x)`: appends `x` unless it is already present. */
  function Insert<T(==,!new)>(s: seq<T>, x: T): (r: seq<T>)
    ensures forall y :: y in r <==> y in s || y == x
    ensures x in s ==> r == s
    ensures x !in s ==> r == s + [x]
    ensures NoDup(s) ==> NoDup(r)
  {
    if x in s then s else s + [x]
  }

  /** `set.delete(x)`: removes `x`, keeping the order of the others. */
  function Delete<T(==,!new)>(s: seq<T>, x: T): (r: seq<T>)
    ensures forall y :: y in r <==> y in s && y != x
    ensures x !in s ==> r == s
    ensures NoDup(s) ==> NoDup(r)
  {
    if |s| == 0 then []
    else if s[0] == x then Delete(s[1..], x)
    else
      var rest := Delete(s[1..], x);
      assert NoDup(s) ==> NoDup(s[1..]) && s[0] !in s[1..];
      PrependNoDup(s[0], rest);
      [s[0]] + rest
  }

  /** `delete` cuts the one occurrence out and keeps the others in order. */
  lemma DeleteCutsOut<T(!new)>(s: seq<T>, x: T)
    requires NoDup(s) && x in s
    ensures exists k :: 0 <= k < |s| && s[k] == x && Delete(s, x) == s[..k] + s[k + 1..]
  {
    var k :| 0 <= k < |s| && s[k] == x;
    assert x !in s[..k] && x !in s[k + 1..] by {
      forall i | 0 <= i < |s| && i != k ensures s[i] != x {
        if i < k { assert s[i] != s[k]; } else { assert s[k] != s[i]; }
      }
    }
    DeleteAt(s, x, k);
  }

  /** Deleting an element that occurs only at index `k`. */
  lemma {:induction false} DeleteAt<T(!new)>(s: seq<T>, x: T, k: int)
    requires 0 <= k < |s| && s[k] == x && x !in s[..k] && x !in s[k + 1..]
    ensures Delete(s, x) == s[..k] + s[k + 1..]
  {
    if k == 0 {
      assert s[..0] + s[1..] == s[1..];
    } else {
      var tail := s[1..];
      assert tail[..k - 1] == s[1..k] && tail[k..] == s[k + 1..];
      DeleteAt(tail, x, k - 1);
      assert s[..k] == [s[0]] + tail[..k - 1];
    }
  }

  lemma PrependNoDup<T>(x: T, s: seq<T>)
    ensures NoDup(s) && x !in s ==> NoDup([x] + s)
  {
    if NoDup(s) && x !in s {
      forall i, j | 0 <= i < j < |[x] + s|
        ensures ([x] + s)[i] != ([x] + s)[j]
      {
        if i > 0 {
          assert ([x] + s)[i] == s[i - 1] && ([x] + s)[j] == s[j - 1];
        } else {
          assert ([x] + s)[j] == s[j - 1];
        }
      }
    }
  }
}
