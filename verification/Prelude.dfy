/** Outcome types and set facts shared by every component. */
module Prelude {
  datatype Option<+T> = None | Some(value: T)

  datatype Result<+T, +E> = Ok(value: T) | Err(error: E)

  /** The failures of the cache, the service and the SCIM client that the model tells apart. */
  datatype Failure = RangeExhausted | ConstraintViolation | Scim

  type u32 = n: int | 0 <= n < 0x1_0000_0000

  /** What a release build's 32-bit addition and subtraction keep of an exact result. */
  function Wrap(n: int): u32 {
    n % 0x1_0000_0000
  }

  ghost function Interval(lo: int, n: nat): (s: set<int>)
    ensures forall x :: x in s <==> lo <= x < lo + n
    ensures |s| == n
  {
    if n == 0 then {} else Interval(lo, n - 1) + {lo + n - 1}
  }

  /** A finite set inside another is no larger, and is the whole of it when equally large. */
  lemma {:induction false} SubsetSize<T>(a: set<T>, b: set<T>)
    requires a <= b
    ensures |a| <= |b|
    ensures |a| == |b| ==> a == b
  {
    if a != {} {
      var x :| x in a;
      SubsetSize(a - {x}, b - {x});
    }
  }

  /** The image of a map that is injective on its keys is as large as its key set. */
  lemma {:induction false} ValuesSize<K, V>(m: map<K, V>)
    requires forall a, b :: a in m && b in m && m[a] == m[b] ==> a == b
    ensures |m.Values| == |m.Keys|
    decreases |m|
  {
    if m == map[] {
      assert m.Values == {};
    } else {
      var k :| k in m;
      var rest := m - {k};
      assert rest.Keys == m.Keys - {k};
      ValuesSize(rest);
      assert m.Values == rest.Values + {m[k]} by {
        forall v | v in m.Values ensures v in rest.Values + {m[k]} {
          var a :| a in m && m[a] == v;
          assert a != k ==> rest[a] == v;
        }
        forall v | v in rest.Values + {m[k]} ensures v in m.Values {
          if v != m[k] {
            var a :| a in rest && rest[a] == v;
            assert m[a] == v;
          }
        }
      }
    }
  }
}
