/** Python's `sorted` on a set of strings: ascending by code point, each once. */
module TextOrder {

  /** `a` comes before `b`. */
  predicate Before(a: string, b: string) {
    if b == "" then false
    else if a == "" then true
    else if a[0] != b[0] then a[0] < b[0]
    else Before(a[1..], b[1..])
  }

  /** The texts agree up to position `k`, where the first one ends or has the smaller character. */
  ghost predicate DiffersAt(a: string, b: string, k: nat) {
    k <= |a| && k < |b| && a[..k] == b[..k] && (k < |a| ==> (a[k] as int) < (b[k] as int))
  }

  lemma {:induction false} BeforeExactly(a: string, b: string)
    ensures Before(a, b) <==> exists k: nat :: DiffersAt(a, b, k)
  {
    if a == "" || b == "" {
      assert b != "" ==> DiffersAt(a, b, 0);
    } else if a[0] != b[0] {
      assert a[0] < b[0] ==> DiffersAt(a, b, 0);
      assert forall k: nat :: 0 < k <= |a| && k <= |b| ==> a[..k][0] == a[0] && b[..k][0] == b[0];
    } else {
      BeforeExactly(a[1..], b[1..]);
      if k: nat :| DiffersAt(a[1..], b[1..], k) {
        assert a[..k + 1] == [a[0]] + a[1..][..k] && b[..k + 1] == [b[0]] + b[1..][..k];
        assert DiffersAt(a, b, k + 1);
      }
      if k: nat :| DiffersAt(a, b, k) {
        assert k > 0;
        assert a[1..][..k - 1] == a[..k][1..] && b[1..][..k - 1] == b[..k][1..];
        assert DiffersAt(a[1..], b[1..], k - 1);
      }
    }
  }

  lemma {:induction false} BeforeOrEqual(a: string, b: string)
    ensures Before(a, b) || a == b || Before(b, a)
    ensures !Before(a, a) && !(Before(a, b) && Before(b, a))
    decreases |a| + |b|
  {
    if a != "" && b != "" && a[0] == b[0] {
      BeforeOrEqual(a[1..], b[1..]);
      assert a == [a[0]] + a[1..] && b == [b[0]] + b[1..];
    }
    if a != "" { NotBeforeItself(a); }
  }

  lemma {:induction false} NotBeforeItself(a: string)
    ensures !Before(a, a)
  {
    if a != "" { NotBeforeItself(a[1..]); }
  }

  lemma {:induction false} BeforeTransitive(a: string, b: string, c: string)
    requires Before(a, b) && Before(b, c)
    ensures Before(a, c)
  {
    if a != "" && a[0] == b[0] && b[0] == c[0] { BeforeTransitive(a[1..], b[1..], c[1..]); }
  }

  ghost predicate Ascending(names: seq<string>) {
    forall i, j :: 0 <= i < j < |names| ==> Before(names[i], names[j])
  }

  function InsertName(names: seq<string>, name: string): seq<string> {
    if names == [] || Before(name, names[0]) then [name] + names
    else if name == names[0] then names
    else [names[0]] + InsertName(names[1..], name)
  }

  lemma {:induction false} InsertNameExact(names: seq<string>, name: string)
    requires Ascending(names)
    ensures Ascending(InsertName(names, name))
    ensures forall x :: x in InsertName(names, name) <==> x == name || x in names
  {
    hide Before;
    if names == [] {
    } else {
      BeforeOrEqual(name, names[0]);
      if Before(name, names[0]) {
        forall j | 0 <= j < |names| ensures Before(name, names[j]) {
          if j > 0 { BeforeTransitive(name, names[0], names[j]); }
        }
      } else if name != names[0] {
        var rest := InsertName(names[1..], name);
        InsertNameExact(names[1..], name);
        forall x ensures x in [names[0]] + rest <==> x == name || x in names {}
        forall j | 0 <= j < |rest| ensures Before(names[0], rest[j]) {
          assert rest[j] in rest;
          if rest[j] != name {
            var k :| 0 <= k < |names[1..]| && names[1..][k] == rest[j];
            assert names[k + 1] == rest[j];
          }
        }
      }
    }
  }

  function SortedNames(names: seq<string>): seq<string> {
    if names == [] then []
    else var n := |names| - 1; InsertName(SortedNames(names[..n]), names[n])
  }

  /** Sorting names keeps each once, in ascending order. */
  lemma {:induction false} SortedNamesExact(names: seq<string>)
    ensures Ascending(SortedNames(names))
    ensures forall x :: x in SortedNames(names) <==> x in names
  {
    if names != [] {
      var n := |names| - 1;
      SortedNamesExact(names[..n]);
      InsertNameExact(SortedNames(names[..n]), names[n]);
      assert names == names[..n] + [names[n]];
    }
  }

  /** Names in ascending order are determined by which they are. */
  lemma {:induction false} AscendingDetermined(a: seq<string>, b: seq<string>)
    requires Ascending(a) && Ascending(b) && forall x :: x in a <==> x in b
    ensures a == b
  {
    hide Before;
    if a == [] || b == [] {
      SomeName(a);
      SomeName(b);
    } else {
      assert a[0] in b && b[0] in a;
      BeforeOrEqual(a[0], b[0]);
      FirstIsLeast(a, b[0]);
      FirstIsLeast(b, a[0]);
      forall x ensures x in a[1..] <==> x in b[1..] {
        InTail(a, x);
        InTail(b, x);
      }
      AscendingDetermined(a[1..], b[1..]);
    }
  }

  lemma SomeName(a: seq<string>)
    ensures a != [] <==> exists x :: x in a
  {
    if a != [] { assert a[0] in a; }
  }

  lemma FirstIsLeast(a: seq<string>, x: string)
    requires Ascending(a) && x in a
    ensures x == a[0] || Before(a[0], x)
  {
  }

  lemma InTail(a: seq<string>, x: string)
    requires Ascending(a) && a != []
    ensures x in a[1..] <==> x in a && x != a[0]
  {
    BeforeOrEqual(a[0], a[0]);
    hide Before;
    assert a == [a[0]] + a[1..];
  }
}
