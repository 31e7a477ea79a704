/**
 The completion record shared by both pipeline versions (`proc_flags` in
 `dependency_builder.py`, `done_tasks` in the release `Formula`): a map from
 a unit's record key to the string of step codes already completed for it.
 The same shape holds the user's forced steps (`options[name]`).
 */
module Completion {
  import opened Text
  import opened Outcomes

  type Record = map<String, String>

  /** `d.get(key, "")` (and `d.setdefault(key, "")` as a query): an absent
      key reads as the empty string. */
  function Lookup(rec: Record, key: String): String {
    if key in rec then rec[key] else ""
  }

  /** `code in d.setdefault(key, "")`: the empty default the lookup
      inserts lists nothing, so a code counts as done only when the key is
      recorded and its string lists the code. */
  predicate IsDone(rec: Record, key: String, code: char) {
    code in Lookup(rec, key)
  }

  /** The empty default a query inserts lists nothing: a code counts as
      done only when the key is recorded and its string lists the code. */
  lemma DoneNeedsEntry(rec: Record, key: String, code: char)
    ensures IsDone(rec, key, code) <==> key in rec && code in rec[key]
  {
  }

  /** No step code is listed twice. */
  predicate NoDup(s: String) {
    forall i, j :: 0 <= i < j < |s| ==> s[i] != s[j]
  }

  predicate WellFormed(rec: Record) {
    forall k :: k in rec ==> NoDup(rec[k])
  }

  /** `mark_proc_as_done` / `task_is_done`: append `code` to the key's
      string unless it is already there. The `setdefault` always leaves
      the key present. */
  function MarkDone(rec: Record, key: String, code: char): (r: Record)
    ensures r.Keys == rec.Keys + {key}
    ensures forall k :: k in rec && k != key ==> r[k] == rec[k]
    ensures forall c :: IsDone(r, key, c) <==> IsDone(rec, key, c) || c == code
    ensures Lookup(r, key) == Lookup(rec, key) || Lookup(r, key) == Lookup(rec, key) + [code]
    ensures NoDup(Lookup(rec, key)) ==> NoDup(Lookup(r, key))
    ensures WellFormed(rec) ==> WellFormed(r)
  {
    var cur := Lookup(rec, key);
    if code in cur then rec[key := cur] else rec[key := cur + [code]]
  }

  /** Marking twice is marking once. */
  lemma MarkDoneIdempotent(rec: Record, key: String, code: char)
    ensures MarkDone(MarkDone(rec, key, code), key, code) == MarkDone(rec, key, code)
  {
  }

  /** Marks of different codes commute only up to the order of the string;
      the set of completed codes is the same either way. */
  lemma MarkDoneCommutesOnCodes(rec: Record, key: String, a: char, b: char)
    ensures forall c :: IsDone(MarkDone(MarkDone(rec, key, a), key, b), key, c)
                    <==> IsDone(MarkDone(MarkDone(rec, key, b), key, a), key, c)
  {
  }

  /** The record loaded at start-up: the stored map, or an empty one when the
      file is missing or cannot be evaluated (`__enter__`). */
  function Load(stored: Option<Record>): (r: Record)
    ensures forall k, c :: IsDone(r, k, c) ==> stored.Some? && IsDone(stored.value, k, c)
    ensures stored.Some? ==> r == stored.value
  {
    match stored
    case None => map[]
    case Some(m) => m
  }
}
