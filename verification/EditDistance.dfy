/** Optimal-string-alignment distance: the rolling three-row computation, the recursion it fills in,
    and the cheapest edit script that recursion stands for. */
module EditDistance {
  function Min(x: nat, y: nat): nat {
    if x <= y then x else y
  }

  /** The distance between the first `i` characters of `a` and the first `j` of `b`. */
  function Osa(a: string, i: nat, b: string, j: nat): nat
    requires i <= |a| && j <= |b|
    decreases i + j, 1
  {
    if i == 0 then j else if j == 0 then i else Cell(a, i, b, j)
  }

  /** The cheapest last step: delete, insert, keep or substitute, transpose. */
  function Cell(a: string, i: nat, b: string, j: nat): nat
    requires 0 < i <= |a| && 0 < j <= |b|
    decreases i + j, 0
  {
    var direct := Min(Min(Osa(a, i - 1, b, j) + 1, Osa(a, i, b, j - 1) + 1),
                      Osa(a, i - 1, b, j - 1) + if a[i - 1] != b[j - 1] then 1 else 0);
    if Swapped(a, i, b, j) then Min(direct, Osa(a, i - 2, b, j - 2) + 1) else direct
  }

  /** The last two characters of the prefixes are each other's transposition. */
  predicate Swapped(a: string, i: nat, b: string, j: nat)
    requires i <= |a| && j <= |b|
  {
    i > 1 && j > 1 && a[i - 1] == b[j - 2] && a[i - 2] == b[j - 1]
  }

  function Distance(a: string, b: string): nat {
    Osa(a, |a|, b, |b|)
  }

  /** One row of the table. */
  ghost predicate IsRow(row: array<nat>, a: string, i: nat, b: string)
    requires i <= |a|
    reads row
  {
    row.Length == |b| + 1 && forall k | 0 <= k <= |b| :: row[k] == Osa(a, i, b, k)
  }

  /** edit_distance: three rows, each computed from the two before it. */
  method EditDistance(left: string, right: string) returns (distance: nat)
    ensures distance == Distance(left, right)
  {
    var previous := new nat[|right| + 1](k => k);
    var previousPrevious := new nat[|right| + 1](k => k);
    for leftIndex := 1 to |left| + 1
      invariant IsRow(previous, left, leftIndex - 1, right)
      invariant leftIndex > 1 ==> IsRow(previousPrevious, left, leftIndex - 2, right)
      invariant previousPrevious.Length == |right| + 1
    {
      var current := NextRow(left, right, leftIndex, previous, previousPrevious);
      previousPrevious := previous;
      previous := current;
    }
    distance := previous[|right|];
  }

  /** The inner loop, for one character of `left`. */
  method NextRow(left: string, right: string, leftIndex: nat, previous: array<nat>, previousPrevious: array<nat>)
    returns (current: array<nat>)
    requires 1 <= leftIndex <= |left| && previousPrevious.Length == |right| + 1
    requires IsRow(previous, left, leftIndex - 1, right)
    requires leftIndex > 1 ==> IsRow(previousPrevious, left, leftIndex - 2, right)
    ensures fresh(current) && IsRow(current, left, leftIndex, right)
  {
    current := new nat[|right| + 1](_ => 0);
    current[0] := leftIndex;
    for rightIndex := 1 to |right| + 1
      invariant forall k | 0 <= k < rightIndex :: current[k] == Osa(left, leftIndex, right, k)
    {
      var cost := if left[leftIndex - 1] != right[rightIndex - 1] then 1 else 0;
      var distance := Min(Min(previous[rightIndex] + 1, current[rightIndex - 1] + 1), previous[rightIndex - 1] + cost);
      if leftIndex > 1 && rightIndex > 1
         && left[leftIndex - 1] == right[rightIndex - 2] && left[leftIndex - 2] == right[rightIndex - 1] {
        distance := Min(distance, previousPrevious[rightIndex - 2] + 1);
      }
      assert distance == Cell(left, leftIndex, right, rightIndex);
      current[rightIndex] := distance;
    }
  }

  // ---------------------------------------------------------------- what the distance measures

  datatype Edit = Keep | Substitute | Insert | Delete | Transpose

  function Cost(edits: seq<Edit>): nat {
    if edits == [] then 0 else Cost(edits[..|edits| - 1]) + if edits[|edits| - 1].Keep? then 0 else 1
  }

  /** The edits, read from left to right, turn the first `i` characters of `a` into the first `j` of
      `b`; every character takes part in one edit only. */
  predicate Edits(edits: seq<Edit>, a: string, i: nat, b: string, j: nat)
    requires i <= |a| && j <= |b|
  {
    if edits == [] then i == 0 && j == 0
    else
      var before := edits[..|edits| - 1];
      match edits[|edits| - 1]
      case Keep => i > 0 && j > 0 && a[i - 1] == b[j - 1] && Edits(before, a, i - 1, b, j - 1)
      case Substitute => i > 0 && j > 0 && Edits(before, a, i - 1, b, j - 1)
      case Insert => j > 0 && Edits(before, a, i, b, j - 1)
      case Delete => i > 0 && Edits(before, a, i - 1, b, j)
      case Transpose => Swapped(a, i, b, j) && Edits(before, a, i - 2, b, j - 2)
  }

  lemma Extend(edits: seq<Edit>, e: Edit)
    ensures (edits + [e])[..|edits|] == edits
    ensures Cost(edits + [e]) == Cost(edits) + if e.Keep? then 0 else 1
  {
    assert (edits + [e])[..|edits|] == edits;
  }

  /** No script is cheaper than the distance. */
  lemma {:induction false} NoCheaperScript(edits: seq<Edit>, a: string, i: nat, b: string, j: nat)
    requires i <= |a| && j <= |b| && Edits(edits, a, i, b, j)
    ensures Osa(a, i, b, j) <= Cost(edits)
    decreases |edits|
  {
    if edits != [] {
      var before := edits[..|edits| - 1];
      match edits[|edits| - 1] {
        case Keep => NoCheaperScript(before, a, i - 1, b, j - 1);
        case Substitute => NoCheaperScript(before, a, i - 1, b, j - 1);
        case Insert => NoCheaperScript(before, a, i, b, j - 1); OsaSteps(a, i, b, j);
        case Delete => NoCheaperScript(before, a, i - 1, b, j); OsaSteps(a, i, b, j);
        case Transpose => NoCheaperScript(before, a, i - 2, b, j - 2);
      }
    }
  }

  lemma OsaSteps(a: string, i: nat, b: string, j: nat)
    requires i <= |a| && j <= |b|
    ensures j > 0 ==> Osa(a, i, b, j) <= Osa(a, i, b, j - 1) + 1
    ensures i > 0 ==> Osa(a, i, b, j) <= Osa(a, i - 1, b, j) + 1
  {
  }

  /** Some script costs exactly the distance. */
  lemma {:induction false} CheapestScript(a: string, i: nat, b: string, j: nat) returns (edits: seq<Edit>)
    requires i <= |a| && j <= |b|
    ensures Edits(edits, a, i, b, j) && Cost(edits) == Osa(a, i, b, j)
    decreases i + j
  {
    var before: seq<Edit>;
    var last: Edit;
    if i == 0 && j == 0 {
      return [];
    }
    var d := Osa(a, i, b, j);
    if j > 0 && d == Osa(a, i, b, j - 1) + 1 {
      before := CheapestScript(a, i, b, j - 1);
      last := Insert;
    } else if i > 0 && d == Osa(a, i - 1, b, j) + 1 {
      before := CheapestScript(a, i - 1, b, j);
      last := Delete;
    } else if Swapped(a, i, b, j) && d == Osa(a, i - 2, b, j - 2) + 1 {
      before := CheapestScript(a, i - 2, b, j - 2);
      last := Transpose;
    } else {
      before := CheapestScript(a, i - 1, b, j - 1);
      last := if a[i - 1] == b[j - 1] then Keep else Substitute;
    }
    Extend(before, last);
    edits := before + [last];
  }

  /** The distance is the cost of the cheapest script of insertions, deletions, substitutions and
      adjacent transpositions from one string to the other. */
  lemma DistanceIsCheapest(a: string, b: string)
    ensures exists edits :: Edits(edits, a, |a|, b, |b|) && Cost(edits) == Distance(a, b)
    ensures forall edits :: Edits(edits, a, |a|, b, |b|) ==> Distance(a, b) <= Cost(edits)
  {
    var edits := CheapestScript(a, |a|, b, |b|);
    forall other | Edits(other, a, |a|, b, |b|) ensures Distance(a, b) <= Cost(other) {
      NoCheaperScript(other, a, |a|, b, |b|);
    }
  }

  lemma CellSymmetric(a: string, i: nat, b: string, j: nat)
    requires 0 < i <= |a| && 0 < j <= |b|
    requires Osa(a, i - 1, b, j) == Osa(b, j, a, i - 1) && Osa(a, i, b, j - 1) == Osa(b, j - 1, a, i)
    requires Osa(a, i - 1, b, j - 1) == Osa(b, j - 1, a, i - 1)
    requires Swapped(a, i, b, j) ==> Osa(a, i - 2, b, j - 2) == Osa(b, j - 2, a, i - 2)
    ensures Cell(a, i, b, j) == Cell(b, j, a, i)
  {
    assert Swapped(a, i, b, j) == Swapped(b, j, a, i);
  }

  lemma {:induction false} OsaSymmetric(a: string, i: nat, b: string, j: nat)
    requires i <= |a| && j <= |b|
    ensures Osa(a, i, b, j) == Osa(b, j, a, i)
    decreases i + j
  {
    if i > 0 && j > 0 {
      OsaSymmetric(a, i - 1, b, j);
      OsaSymmetric(a, i, b, j - 1);
      OsaSymmetric(a, i - 1, b, j - 1);
      if Swapped(a, i, b, j) {
        OsaSymmetric(a, i - 2, b, j - 2);
      }
      CellSymmetric(a, i, b, j);
    }
  }

  lemma {:induction false} OsaBounds(a: string, i: nat, b: string, j: nat)
    requires i <= |a| && j <= |b|
    ensures i <= j + Osa(a, i, b, j) && j <= i + Osa(a, i, b, j)
    ensures Osa(a, i, b, j) <= if i <= j then j else i
    decreases i + j
  {
    if i > 0 && j > 0 {
      OsaBounds(a, i - 1, b, j);
      OsaBounds(a, i, b, j - 1);
      OsaBounds(a, i - 1, b, j - 1);
      if Swapped(a, i, b, j) {
        OsaBounds(a, i - 2, b, j - 2);
      }
    }
  }

  lemma {:induction false} OsaZero(a: string, i: nat, b: string, j: nat)
    requires i <= |a| && j <= |b|
    ensures Osa(a, i, b, j) == 0 <==> a[..i] == b[..j]
    decreases i + j
  {
    if i > 0 && j > 0 {
      OsaZero(a, i - 1, b, j - 1);
      assert a[..i] == a[..i - 1] + [a[i - 1]] && b[..j] == b[..j - 1] + [b[j - 1]];
    }
  }

  /** Symmetric, zero exactly on equal strings, between the length difference and the longer length. */
  lemma DistanceLaws(a: string, b: string)
    ensures Distance(a, b) == Distance(b, a)
    ensures Distance(a, b) == 0 <==> a == b
    ensures |a| <= |b| + Distance(a, b) && |b| <= |a| + Distance(a, b)
    ensures Distance(a, b) <= if |a| <= |b| then |b| else |a|
  {
    OsaSymmetric(a, |a|, b, |b|);
    OsaZero(a, |a|, b, |b|);
    OsaBounds(a, |a|, b, |b|);
    assert a[..|a|] == a && b[..|b|] == b;
  }

  /** It is not a metric: two typing errors in a row can be cheaper than their combination. */
  lemma TriangleFails()
    ensures Distance("ca", "abc") > Distance("ca", "ac") + Distance("ac", "abc")
  {
    var x, y, z := "ca", "ac", "abc";
    assert Osa(x, 1, z, 1) == 1 && Osa(x, 1, z, 2) == 2 && Osa(x, 1, z, 3) == 2;
    assert Osa(x, 2, z, 1) == 1 && Osa(x, 2, z, 2) == 2 && Osa(x, 2, z, 3) == 3;
    assert Osa(x, 1, y, 1) == 1 && Osa(x, 1, y, 2) == 1 && Osa(x, 2, y, 1) == 1 && Osa(x, 2, y, 2) == 1;
    assert Osa(y, 1, z, 1) == 0 && Osa(y, 1, z, 2) == 1 && Osa(y, 1, z, 3) == 2;
    assert Osa(y, 2, z, 1) == 1 && Osa(y, 2, z, 2) == 1 && Osa(y, 2, z, 3) == 1;
  }
}
