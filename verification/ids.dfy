/** Normalisation of user-supplied id lists: each entry is a bare id or an
    object with an `id`; the result keeps the non-empty ids in order
    (`(entries ?? []).map(e => typeof e === 'string' ? e : e.id).filter(Boolean)`). */
module Ids {
  import opened Wrappers

  /** One entry of an id option: a bare string, or a channel/guild/user object. */
  datatype IdEntry = Bare(text: string) | Object(id: string)

  function IdOf(e: IdEntry): string {
    match e
    case Bare(s) => s
    case Object(s) => s
  }

  /** The ids of the entries, one per entry, in order (the `map` step alone). */
  function IdsOf(entries: seq<IdEntry>): (r: seq<string>)
    ensures |r| == |entries|
    ensures forall i :: 0 <= i < |entries| ==> r[i] == IdOf(entries[i])
  {
    seq(|entries|, i requires 0 <= i < |entries| => IdOf(entries[i]))
  }

  /** The `map` then `filter(Boolean)` steps: empty ids are the only falsy strings. */
  function KeepIds(entries: seq<IdEntry>): (r: seq<string>)
    ensures |r| <= |entries|
    ensures forall i :: 0 <= i < |r| ==> r[i] != ""
    ensures forall x :: x in r <==> x != "" && x in IdsOf(entries)
  {
    if entries == [] then []
    else
      var rest := KeepIds(entries[1..]);
      assert IdsOf(entries) == [IdOf(entries[0])] + IdsOf(entries[1..]);
      if IdOf(entries[0]) == "" then rest else [IdOf(entries[0])] + rest
  }

  /** The whole normalisation; an absent option gives the empty list. */
  function NormalizeIds(entries: Option<seq<IdEntry>>): (r: seq<string>)
    ensures entries.None? ==> r == []
    ensures forall i :: 0 <= i < |r| ==> r[i] != ""
    ensures entries.Some? ==> forall x :: x in r <==> x != "" && x in IdsOf(entries.value)
    ensures entries.Some? ==> r == KeepIds(entries.value)
  {
    match entries
    case None => []
    case Some(es) => KeepIds(es)
  }

  /** Order is kept: normalising a concatenation concatenates the normal forms. */
  lemma {:induction false} KeepIdsAppend(a: seq<IdEntry>, b: seq<IdEntry>)
    ensures KeepIds(a + b) == KeepIds(a) + KeepIds(b)
  {
    if a == [] {
      assert a + b == b;
    } else {
      assert (a + b)[0] == a[0];
      assert (a + b)[1..] == a[1..] + b;
      KeepIdsAppend(a[1..], b);
    }
  }

  /** Nothing but empty ids is dropped: with no empty id the ids come out one per entry. */
  lemma {:induction false} KeepIdsNoneEmpty(entries: seq<IdEntry>)
    requires forall i :: 0 <= i < |entries| ==> IdOf(entries[i]) != ""
    ensures KeepIds(entries) == IdsOf(entries)
  {
    if entries != [] {
      KeepIdsNoneEmpty(entries[1..]);
      assert IdsOf(entries) == [IdOf(entries[0])] + IdsOf(entries[1..]);
    }
  }
}
