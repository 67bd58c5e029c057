/**
 * The CDL annual-crop remap table (IN -> OUT codes read from a CSV) and the provenance
 * note written whenever a code went through it. The field scripts test membership in
 * the table as read; the image scripts first complete it so that every code 1..255
 * not in the table maps to itself, and hand it to Earth Engine's remap, which masks
 * any value outside its input list.
 */
module Remap {
  import opened Wrappers

  /** The table as read: only the codes the CSV lists. */
  type Table = map<int, int>

  /** The suffix appended to a provenance string after a remap. */
  const Note: string := " - remapped annual crops"

  /** The text the scripts search for to tell whether a provenance was remapped. */
  const NoteText: string := "remapped annual crops"

  /** total is the table completed over the codes 1..255 with the identity. */
  ghost predicate Completes(total: map<int, int>, t: Table) {
    (forall c :: c in total <==> c in t || 1 <= c <= 255)
    && (forall c :: c in t ==> total[c] == t[c])
    && (forall c :: c in total && c !in t ==> total[c] == c)
  }

  /** The loop that maps every code 1..255 the table does not list to itself. */
  method Complete(t: Table) returns (total: map<int, int>)
    ensures Completes(total, t)
  {
    total := t;
    var code := 1;
    while code <= 255
      invariant 1 <= code <= 256
      invariant forall c :: c in total <==> c in t || 1 <= c < code
      invariant forall c :: c in t ==> total[c] == t[c]
      invariant forall c :: c in total && c !in t ==> total[c] == c
    {
      if code !in t {
        total := total[code := code];
      }
      code := code + 1;
    }
  }

  /** Earth Engine's image.remap(from, to) at one pixel: unlisted values become masked. */
  function Apply(total: map<int, int>, v: Option<int>): Option<int>
  {
    if v.Some? && v.value in total then Some(total[v.value]) else None
  }

  /** A completed remap leaves every unlisted CDL code as it is and never masks one. */
  lemma ApplyCompleted(t: Table, total: map<int, int>, c: int)
    requires Completes(total, t)
    requires 1 <= c <= 255
    ensures Apply(total, Some(c)) == Some(if c in t then t[c] else c)
  {
  }

  /** Every OUT code is itself a code the completed remap keeps. */
  ghost predicate TargetsFixed(t: Table) {
    forall c :: c in t ==> (if t[c] in t then t[t[c]] == t[c] else 1 <= t[c] <= 255)
  }

  /** Remapping twice is remapping once when the table's targets are fixed points. */
  lemma ApplyIdempotent(t: Table, total: map<int, int>, v: Option<int>)
    requires Completes(total, t) && TargetsFixed(t)
    ensures Apply(total, Apply(total, v)) == Apply(total, v)
  {
    if v.Some? && v.value in total {
      var c := v.value;
      if c in t {
        assert total[c] == t[c];
        if t[c] in t { assert total[t[c]] == t[t[c]]; }
      }
    }
  }
}
