/** Python's string order and `sorted(set)`: the order in which findings are reported. */
module Ordering {

  /** Lexicographic order on code points. */
  predicate Below(a: string, b: string) {
    a == [] || (b != [] && (a[0] < b[0] || (a[0] == b[0] && Below(a[1..], b[1..]))))
  }

  lemma {:induction false} BelowTotal(a: string, b: string)
    ensures Below(a, b) || Below(b, a)
  {
    if a != [] && b != [] && a[0] == b[0] {
      BelowTotal(a[1..], b[1..]);
    }
  }

  lemma {:induction false} BelowAntisymmetric(a: string, b: string)
    requires Below(a, b) && Below(b, a)
    ensures a == b
  {
    if a != [] {
      BelowAntisymmetric(a[1..], b[1..]);
      assert a == [a[0]] + a[1..] && b == [b[0]] + b[1..];
    }
  }

  lemma {:induction false} BelowTransitive(a: string, b: string, c: string)
    requires Below(a, b) && Below(b, c)
    ensures Below(a, c)
  {
    if a != [] && a[0] == b[0] && b[0] == c[0] {
      BelowTransitive(a[1..], b[1..], c[1..]);
    }
  }

  predicate IsLeast(least: string, keys: set<string>) {
    least in keys && forall key {:trigger Below(least, key)} :: key in keys ==> Below(least, key)
  }

  lemma {:induction false} LeastExists(keys: set<string>) returns (least: string)
    requires keys != {}
    ensures IsLeast(least, keys)
  {
    var key :| key in keys;
    if keys == {key} {
      least := key;
      BelowTotal(key, key);
    } else {
      var rest := keys - {key};
      assert keys == rest + {key};
      least := LeastExists(rest);
      BelowTotal(key, least);
      if !Below(least, key) {
        forall other | other in keys ensures Below(key, other) {
          BelowTotal(key, key);
          if other != key { BelowTransitive(key, least, other); }
        }
        least := key;
      }
    }
  }

  lemma LeastIsUnique(a: string, b: string, keys: set<string>)
    requires IsLeast(a, keys) && IsLeast(b, keys)
    ensures a == b
  {
    BelowAntisymmetric(a, b);
  }

  function Least(keys: set<string>): (least: string)
    requires keys != {}
    ensures IsLeast(least, keys)
  {
    assert exists key :: IsLeast(key, keys) by {
      var key := LeastExists(keys);
    }
    assert forall a, b :: IsLeast(a, keys) && IsLeast(b, keys) ==> a == b by {
      forall a, b | IsLeast(a, keys) && IsLeast(b, keys) ensures a == b {
        LeastIsUnique(a, b, keys);
      }
    }
    var least :| least in keys && IsLeast(least, keys);
    least
  }

  ghost predicate StrictlyAscending(keys: seq<string>) {
    forall i, j :: 0 <= i < j < |keys| ==> Below(keys[i], keys[j]) && keys[i] != keys[j]
  }

  /** `sorted(keys)`: every key once, in ascending order. */
  function Sorted(keys: set<string>): (result: seq<string>)
    ensures forall i :: 0 <= i < |result| ==> result[i] in keys
  {
    if keys == {} then []
    else
      var least := Least(keys);
      [least] + Sorted(keys - {least})
  }

  lemma {:induction false} SortedIsSorted(keys: set<string>)
    ensures StrictlyAscending(Sorted(keys))
    ensures forall key :: key in keys <==> key in Sorted(keys)
  {
    if keys != {} {
      var least := Least(keys);
      var rest := Sorted(keys - {least});
      SortedIsSorted(keys - {least});
      assert forall i :: 0 <= i < |rest| ==> rest[i] in keys - {least};
    }
  }
}
