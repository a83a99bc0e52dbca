/** The order of strings by `<` and `sort()`: letter by letter, a prefix first. */
module TextOrder {
  /** `a` is `b` or sorts before it. */
  predicate Precedes(a: string, b: string) {
    a == [] || (b != [] && (a[0] < b[0] || (a[0] == b[0] && Precedes(a[1..], b[1..]))))
  }

  lemma {:induction false} PrecedesIsTotal(a: string, b: string)
    ensures Precedes(a, b) || Precedes(b, a)
    ensures Precedes(a, b) && Precedes(b, a) <==> a == b
    decreases |a|
  {
    if a != [] && b != [] {
      PrecedesIsTotal(a[1..], b[1..]);
      assert a == [a[0]] + a[1..] && b == [b[0]] + b[1..];
    }
  }

  lemma {:induction false} PrecedesIsTransitive(a: string, b: string, c: string)
    requires Precedes(a, b) && Precedes(b, c)
    ensures Precedes(a, c)
    decreases |a|
  {
    if a != [] && a[0] == b[0] == c[0] {
      PrecedesIsTransitive(a[1..], b[1..], c[1..]);
    }
  }

  /** The first letters that differ decide, and a text comes before what goes on from it. */
  lemma {:induction false} FirstDifferenceDecides(p: string, a: string, b: string)
    ensures a != "" && b != "" && a[0] != b[0] ==> (Precedes(p + a, p + b) <==> a[0] < b[0])
    ensures Precedes(p, p + a)
    ensures a != "" ==> !Precedes(p + a, p)
    decreases |p|
  {
    if p == "" {
      assert p + a == a && p + b == b;
    } else {
      FirstDifferenceDecides(p[1..], a, b);
      assert (p + a)[1..] == p[1..] + a && (p + b)[1..] == p[1..] + b;
      assert (p + a)[0] == p[0] && (p + b)[0] == p[0];
    }
  }

  /** Negative, zero or positive, as the comparators answer. */
  function CompareText(a: string, b: string): int { if a == b then 0 else if Precedes(a, b) then -1 else 1 }

  lemma CompareTextIsOrder(a: string, b: string, c: string)
    ensures CompareText(a, b) == -CompareText(b, a)
    ensures CompareText(a, b) == 0 <==> a == b
    ensures CompareText(a, b) <= 0 && CompareText(b, c) <= 0 ==> CompareText(a, c) <= 0
  {
    PrecedesIsTotal(a, b);
    PrecedesIsTotal(b, c);
    if Precedes(a, b) && Precedes(b, c) {
      PrecedesIsTransitive(a, b, c);
    }
  }

  ghost predicate Sorted(names: seq<string>) {
    forall i, j :: 0 <= i < j < |names| ==> Precedes(names[i], names[j])
  }

  ghost predicate NoneTwice(names: seq<string>) { forall i, j :: 0 <= i < j < |names| ==> names[i] != names[j] }

  /** `sort()`: the same names, in order. */
  function SortNames(names: seq<string>): (sorted: seq<string>)
    ensures Sorted(sorted) && forall n :: n in sorted <==> n in names
    ensures NoneTwice(names) ==> NoneTwice(sorted)
  {
    if names == [] then []
    else
      assert names == [names[0]] + names[1..];
      InsertedIsSorted(names[0], SortNames(names[1..]));
      InsertedHasAll(names[0], SortNames(names[1..]));
      InsertName(names[0], SortNames(names[1..]))
  }

  function InsertName(name: string, names: seq<string>): seq<string> {
    if names == [] then [name]
    else if Precedes(name, names[0]) then [name] + names
    else [names[0]] + InsertName(name, names[1..])
  }

  /** What is inserted is there, once. */
  lemma {:induction false} InsertedHasAll(name: string, names: seq<string>)
    ensures forall n :: n in InsertName(name, names) <==> n == name || n in names
    ensures name !in names && NoneTwice(names) ==> NoneTwice(InsertName(name, names))
    decreases |names|
  {
    hide Precedes;
    hide NoneTwice;
    FirstNotTwice(name, names);
    if names != [] {
      assert names == [names[0]] + names[1..];
      FirstNotTwice(names[0], names[1..]);
      InsertedHasAll(name, names[1..]);
      FirstNotTwice(names[0], InsertName(name, names[1..]));
    }
  }

  lemma FirstNotTwice(first: string, rest: seq<string>)
    ensures NoneTwice([first] + rest) <==> first !in rest && NoneTwice(rest)
    ensures NoneTwice([first])
  {
    if NoneTwice([first] + rest) {
      forall i, j | 0 <= i < j < |rest|
        ensures rest[i] != rest[j]
      {
        assert ([first] + rest)[i + 1] != ([first] + rest)[j + 1];
      }
      forall i | 0 <= i < |rest|
        ensures rest[i] != first
      {
        assert ([first] + rest)[0] != ([first] + rest)[i + 1];
      }
    }
  }

  lemma {:induction false} InsertedIsSorted(name: string, names: seq<string>)
    requires Sorted(names)
    ensures Sorted(InsertName(name, names))
    decreases |names|
  {
    hide Precedes;
    if names != [] {
      PrecedesIsTotal(name, names[0]);
      if Precedes(name, names[0]) {
        forall j | 0 < j < |names|
          ensures Precedes(name, names[j])
        {
          PrecedesIsTransitive(name, names[0], names[j]);
        }
      } else {
        InsertedIsSorted(name, names[1..]);
        InsertedHasAll(name, names[1..]);
        var rest := InsertName(name, names[1..]);
        forall j | 0 <= j < |rest|
          ensures Precedes(names[0], rest[j])
        {
          assert rest[j] in rest && (rest[j] == name || rest[j] in names[1..]);
        }
      }
    }
  }
}
