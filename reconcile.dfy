/**
  Reconciling the new entry list with the previous output file's dict:
  `fetch_whois_info`, then the added/removed bookkeeping and the
  `del existing_entries[entry]` loop of `process_lists`, then the merge
  `{**existing_entries, **looked_up_addresses}`.
  The registry request is a parameter: `lookup(address)` is the parsed
  response, or `None` when the request or its decoding raised.
 */
module Reconcile {
  import opened Wrappers
  import opened PyStr
  import opened OrderedDict

  /** The three response fields the comment uses; `None` for a missing field. */
  datatype WhoisRecord = WhoisRecord(country: Option<string>, region: Option<string>, isp: Option<string>)

  type Lookup = string -> Option<WhoisRecord>

  /** `str()` of a field, which is `"None"` when the field is missing. */
  function FieldText(f: Option<string>): string
  {
    match f
    case None => "None"
    case Some(s) => s
  }

  /** `f"{country} | {region} | {isp}"`. */
  function WhoisComment(r: WhoisRecord): (c: string)
    ensures |c| >= 6
  {
    FieldText(r.country) + " | " + FieldText(r.region) + " | " + FieldText(r.isp)
  }

  /** The comment a lookup of `entry` gives, asked for the address before the first `/`. */
  function LookupComment(entry: string, lookup: Lookup): Option<string>
  {
    match lookup(BeforeFirst(entry, '/'))
    case None => None
    case Some(r) => Some(WhoisComment(r))
  }

  /** `whois_info` after the entries `entries`, assigned in turn. */
  function WhoisInfo(entries: seq<string>, existing: Items, lookup: Lookup): (info: Items)
    ensures UniqueKeys(info)
  {
    if entries == [] then []
    else
      var info := WhoisInfo(entries[..|entries| - 1], existing, lookup);
      var entry := entries[|entries| - 1];
      if entry in KeySet(existing) then
        PutGet(info, entry, Get(existing, entry));
        Put(info, entry, Get(existing, entry))
      else
        match LookupComment(entry, lookup)
        case None => info
        case Some(c) =>
          PutGet(info, entry, c);
          Put(info, entry, c)
  }

  /**
    `fetch_whois_info(entries, existing_entries)`: a known entry keeps its
    old comment; a new one is looked up, and left out when the lookup fails.
   */
  method FetchWhoisInfo(entries: seq<string>, existing: Items, lookup: Lookup) returns (info: Items)
    ensures info == WhoisInfo(entries, existing, lookup)
    ensures UniqueKeys(info)
    ensures forall e :: e in KeySet(info) <==>
      e in entries && (e in KeySet(existing) || LookupComment(e, lookup).Some?)
    ensures forall e :: e in KeySet(info) ==>
      Get(info, e) == if e in KeySet(existing) then Get(existing, e) else LookupComment(e, lookup).value
  {
    info := [];
    var i := 0;
    while i < |entries|
      invariant 0 <= i <= |entries|
      invariant info == WhoisInfo(entries[..i], existing, lookup)
    {
      var entry := entries[i];
      assert entries[..i + 1][..i] == entries[..i];
      if entry !in KeySet(existing) {
        match lookup(BeforeFirst(entry, '/')) {
          case Some(r) =>
            info := Put(info, entry, WhoisComment(r));
          case None =>
        }
      } else {
        info := Put(info, entry, Get(existing, entry));
      }
      i := i + 1;
    }
    assert entries[..i] == entries;
    WhoisInfoMeaning(entries, existing, lookup);
  }

  /** Which entries `whois_info` holds, and with which comment. */
  lemma {:induction false} WhoisInfoMeaning(entries: seq<string>, existing: Items, lookup: Lookup)
    ensures forall e :: e in KeySet(WhoisInfo(entries, existing, lookup)) <==>
      e in entries && (e in KeySet(existing) || LookupComment(e, lookup).Some?)
    ensures forall e :: e in KeySet(WhoisInfo(entries, existing, lookup)) ==>
      Get(WhoisInfo(entries, existing, lookup), e) ==
        if e in KeySet(existing) then Get(existing, e) else LookupComment(e, lookup).value
  {
    if entries != [] {
      var init := entries[..|entries| - 1];
      var entry := entries[|entries| - 1];
      assert entries == init + [entry];
      WhoisInfoMeaning(init, existing, lookup);
      var info := WhoisInfo(init, existing, lookup);
      if entry in KeySet(existing) {
        PutGet(info, entry, Get(existing, entry));
      } else if LookupComment(entry, lookup).Some? {
        PutGet(info, entry, LookupComment(entry, lookup).value);
      }
    }
  }

  /** The entries of `existing` that the new list no longer has. */
  function Removed(current: set<string>, existing: Items): set<string>
  {
    KeySet(existing) - current
  }

  /** `for entry in removed_entries: del existing_entries[entry]`. */
  method DropRemoved(existing: Items, current: set<string>) returns (kept: Items)
    ensures kept == Restrict(existing, current)
  {
    kept := existing;
    var pending := Removed(current, existing);
    assert existing == Restrict(existing, current + pending) by {
      RestrictAll(existing, current + pending);
    }
    while pending != {}
      invariant pending <= Removed(current, existing)
      invariant kept == Restrict(existing, current + pending)
      decreases |pending|
    {
      var entry :| entry in pending;
      DropStep(existing, current, pending, entry);
      kept := Delete(kept, entry);
      pending := pending - {entry};
    }
  }

  lemma DropStep(existing: Items, current: set<string>, pending: set<string>, entry: string)
    requires entry in pending && pending <= Removed(current, existing)
    ensures Delete(Restrict(existing, current + pending), entry) == Restrict(existing, current + (pending - {entry}))
  {
    RestrictDelete(existing, current + pending, entry);
    assert (current + pending) - {entry} == current + (pending - {entry});
  }

  lemma {:induction false} RestrictAll(d: Items, keep: set<string>)
    requires KeySet(d) <= keep
    ensures Restrict(d, keep) == d
  {
    if d != [] {
      KeySetCons(d);
      RestrictAll(d[1..], keep);
      assert d == [d[0]] + d[1..];
    }
  }

  /** The dict `process_lists` hands to the sort. */
  function Reconciled(grouped: seq<string>, existing: Items, lookup: Lookup): Items
  {
    var current := set e | e in grouped;
    Merge(Restrict(existing, current), WhoisInfo(grouped, existing, lookup))
  }

  /**
    The reconciled dict holds only current entries; an entry already in the
    old file keeps its old comment; a new entry is there exactly when its
    lookup succeeded, with the lookup's comment.
   */
  lemma ReconciledMeaning(grouped: seq<string>, existing: Items, lookup: Lookup)
    requires UniqueKeys(existing)
    ensures UniqueKeys(Reconciled(grouped, existing, lookup))
    ensures KeySet(Reconciled(grouped, existing, lookup)) <= set e | e in grouped
    ensures forall e :: e in grouped && e in KeySet(existing) ==>
      e in KeySet(Reconciled(grouped, existing, lookup)) && Get(Reconciled(grouped, existing, lookup), e) == Get(existing, e)
    ensures forall e :: e in grouped && e !in KeySet(existing) ==>
      (e in KeySet(Reconciled(grouped, existing, lookup)) <==> LookupComment(e, lookup).Some?)
    ensures forall e :: e in grouped && e !in KeySet(existing) && LookupComment(e, lookup).Some? ==>
      Get(Reconciled(grouped, existing, lookup), e) == LookupComment(e, lookup).value
  {
    var current := set e | e in grouped;
    var kept := Restrict(existing, current);
    var info := WhoisInfo(grouped, existing, lookup);
    RestrictGet(existing, current);
    WhoisInfoMeaning(grouped, existing, lookup);
    forall e | e in KeySet(kept) + KeySet(info)
      ensures Get(Merge(kept, info), e) == if e in KeySet(info) then Get(info, e) else Get(kept, e)
    {
      MergeGet(kept, info, e);
    }
  }

  /** `len(added_entries)` and `len(removed_entries)`. */
  function Counts(grouped: seq<string>, existing: Items): (counts: (nat, nat))
  {
    var current := set e | e in grouped;
    (|current - KeySet(existing)|, |KeySet(existing) - current|)
  }

  /**
    The counts compare entry sets, not the final dict: a new entry whose
    lookup failed still counts as added. With a lookup that never fails the
    reconciled dict has exactly the current entries.
   */
  lemma CountsAgainstResult(grouped: seq<string>, existing: Items, lookup: Lookup)
    requires UniqueKeys(existing)
    requires forall e :: e in grouped ==> LookupComment(e, lookup).Some?
    ensures KeySet(Reconciled(grouped, existing, lookup)) == set e | e in grouped
    ensures Counts(grouped, existing).0 == |KeySet(Reconciled(grouped, existing, lookup)) - KeySet(existing)|
    ensures Counts(grouped, existing).1 == |KeySet(existing) - KeySet(Reconciled(grouped, existing, lookup))|
  {
    ReconciledMeaning(grouped, existing, lookup);
  }
}
