/**
 * stat_dict of crop_pascal_voc.py (lines 72, 92-95): for each class cls,
 * the index of the cls's latest crop. It is created once per run.
 */
module ClassCounter {

  type Counter = map<string, nat>

  /** The first sighting of a cls stores 0; each later sighting adds 1 to its entry. */
  function Bump(m: Counter, cls: string): (r: Counter)
    ensures r.Keys == m.Keys + {cls}
    ensures cls !in m ==> r[cls] == 0
    ensures cls in m ==> r[cls] == m[cls] + 1
    ensures forall other | other in m && other != cls :: r[other] == m[other]
  {
    if cls !in m then m[cls := 0] else m[cls := m[cls] + 1]
  }

  /** How many times cls occurs in classes. */
  function Occurrences(classes: seq<string>, cls: string): (n: nat)
    ensures n <= |classes|
  {
    if classes == [] then 0
    else Occurrences(classes[..|classes| - 1], cls) + (if classes[|classes| - 1] == cls then 1 else 0)
  }

  /**
   * The counter is the one built from classes: a cls has an entry exactly
   * when it occurred, and the entry is its number of occurrences minus one.
   */
  ghost predicate Agrees(m: Counter, classes: seq<string>) {
    forall cls :: AgreesOn(m, classes, cls)
  }

  ghost predicate AgreesOn(m: Counter, classes: seq<string>, cls: string) {
    && (cls in m <==> Occurrences(classes, cls) > 0)
    && (cls in m ==> m[cls] + 1 == Occurrences(classes, cls))
  }

  lemma EmptyAgrees()
    ensures Agrees(map[], [])
  {
  }

  lemma OccurrencesAppend(classes: seq<string>, next: string, cls: string)
    ensures Occurrences(classes + [next], cls) == Occurrences(classes, cls) + (if next == cls then 1 else 0)
  {
    assert (classes + [next])[..|classes|] == classes;
  }

  /**
   * Counting one more sighting of cls keeps the counter in step with the
   * classes seen, and the index it hands out is the number of earlier
   * sightings of that cls.
   */
  lemma BumpAgrees(m: Counter, classes: seq<string>, cls: string)
    requires Agrees(m, classes)
    ensures Agrees(Bump(m, cls), classes + [cls])
    ensures Bump(m, cls)[cls] == Occurrences(classes, cls)
  {
    forall other
      ensures AgreesOn(Bump(m, cls), classes + [cls], other)
    {
      assert AgreesOn(m, classes, other);
      OccurrencesAppend(classes, cls, other);
    }
    assert AgreesOn(m, classes, cls);
  }

  /** A cls occurs at least as often in a sequence as in any prefix of it. */
  lemma {:induction false} OccurrencesPrefix(s: seq<string>, t: seq<string>, cls: string)
    requires s <= t
    ensures Occurrences(s, cls) <= Occurrences(t, cls)
  {
    if |s| < |t| {
      OccurrencesPrefix(s, t[..|t| - 1], cls);
    } else {
      assert s == t;
    }
  }

  /** The k-th sighting of a cls from a fresh counter is handed index k - 1, with no gap and no repeat. */
  lemma {:induction false} SameClassIndices(classes: seq<string>, cls: string)
    requires forall k | 0 <= k < |classes| :: classes[k] == cls
    ensures Occurrences(classes, cls) == |classes|
  {
    if classes != [] {
      SameClassIndices(classes[..|classes| - 1], cls);
    }
  }
}
