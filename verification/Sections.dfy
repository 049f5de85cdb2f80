/** The loops over the three sections of a response, which share one cursor. */
module Sections {
  import opened CStrings
  import opened Options
  import opened Records
  import opened Multimap
  import opened Caches
  import opened Decoders

  /** Where a loop leaves the cursor, and what it has gathered. */
  datatype Read<T> = Read(cursor: nat, result: T)

  // ----- What the loops read; `None` if a record leaves the message or its name leaves the buffer -----

  function AnswersRead(buf: seq<Byte>, jumps: nat, k: nat, count: nat, m: map<seq<Byte>, seq<Byte>>)
    : Option<Read<map<seq<Byte>, seq<Byte>>>>
    decreases count
  {
    if count == 0 then Some(Read(k, m))
    else if !RecordFits(buf, jumps, k) || TextOf(OwnerBytes(buf, jumps, k)).None? then None
    else AnswersRead(buf, jumps, CursorAfter(buf, k), count - 1,
                     AnswerEffect(buf, CodeView(buf, k), TextOf(OwnerBytes(buf, jumps, k)).value, m))
  }

  predicate AuthorityFits(buf: seq<Byte>, jumps: nat, k: nat) {
    && NameFits(buf, jumps, CodeView(buf, k).nameAt) && NameFits(buf, jumps, CodeView(buf, k).dataAt)
    && TextOf(ServerBytes(buf, jumps, k)).Some?
  }

  function AuthoritiesRead(buf: seq<Byte>, jumps: nat, k: nat, count: nat, foundNs: map<seq<Byte>, seq<Byte>>)
    : Option<Read<map<seq<Byte>, seq<Byte>>>>
    decreases count
  {
    if count == 0 then Some(Read(k, foundNs))
    else if !AuthorityFits(buf, jumps, k) then None
    else AuthoritiesRead(buf, jumps, AuthorityCursor(buf, k), count - 1,
                         InsertNew(foundNs, TextOf(ServerBytes(buf, jumps, k)).value, OwnerBytes(buf, jumps, k)))
  }

  function AdditionalsRead(buf: seq<Byte>, jumps: nat, k: nat, count: nat, foundNs: map<seq<Byte>, seq<Byte>>, es: seq<Entry>)
    : Option<Read<seq<Entry>>>
    decreases count
  {
    if count == 0 then Some(Read(k, es))
    else if !RecordFits(buf, jumps, k) || TextOf(OwnerBytes(buf, jumps, k)).None? then None
    else
      var owner := TextOf(OwnerBytes(buf, jumps, k)).value;
      AdditionalsRead(buf, jumps, CursorAfter(buf, k), count - 1, foundNs,
                      EmplaceAll(es, AdditionalEffect(buf, CodeView(buf, k), owner, foundNs)))
  }

  // ----- The loops -----

  method DecodeAnswers(buf: seq<Byte>, k: nat, count: nat, resolved: LockedMap, ghost jumps: nat) returns (k': nat)
    requires AnswersRead(buf, jumps, k, count, resolved.entries).Some?
    modifies resolved
    ensures AnswersRead(buf, jumps, k, count, old(resolved.entries)) == Some(Read(k', resolved.entries))
  {
    hide CodeView, RecordFits, CursorAfter, TextOf, OwnerBytes, AnswerEffect;
    k' := k;
    for i := 0 to count
      invariant AnswersRead(buf, jumps, k', count - i, resolved.entries) == AnswersRead(buf, jumps, k, count, old(resolved.entries))
    {
      var ok;
      ok, k' := DecodeAnswerRecord(buf, k', resolved, jumps);
    }
  }

  method DecodeAuthorities(buf: seq<Byte>, k: nat, count: nat, ghost jumps: nat)
    returns (k': nat, foundNs: map<seq<Byte>, seq<Byte>>)
    requires AuthoritiesRead(buf, jumps, k, count, map[]).Some?
    ensures AuthoritiesRead(buf, jumps, k, count, map[]) == Some(Read(k', foundNs))
  {
    hide CodeView, NameFits, AuthorityCursor, TextOf, OwnerBytes, ServerBytes, InsertNew;
    k' := k;
    foundNs := map[];
    for i := 0 to count
      invariant AuthoritiesRead(buf, jumps, k', count - i, foundNs) == AuthoritiesRead(buf, jumps, k, count, map[])
    {
      var ok;
      ok, k', foundNs := DecodeAuthoritativeRecord(buf, k', foundNs, jumps);
    }
  }

  method DecodeAdditionals(buf: seq<Byte>, k: nat, count: nat, foundNs: map<seq<Byte>, seq<Byte>>, nsCache: LockedMulti,
                           ghost jumps: nat) returns (k': nat)
    requires nsCache.Valid() && AdditionalsRead(buf, jumps, k, count, foundNs, nsCache.entries).Some?
    modifies nsCache
    ensures nsCache.Valid()
    ensures AdditionalsRead(buf, jumps, k, count, foundNs, old(nsCache.entries)) == Some(Read(k', nsCache.entries))
  {
    hide CodeView, RecordFits, CursorAfter, TextOf, OwnerBytes, AdditionalEffect, EmplaceAll, Sorted;
    k' := k;
    for i := 0 to count
      invariant nsCache.Valid()
      invariant AdditionalsRead(buf, jumps, k', count - i, foundNs, nsCache.entries)
             == AdditionalsRead(buf, jumps, k, count, foundNs, old(nsCache.entries))
    {
      var ok;
      ok, k' := DecodeAdditionalRecord(buf, k', foundNs, nsCache, jumps);
    }
  }
}
