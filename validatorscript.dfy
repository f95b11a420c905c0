/**
  The older script with hard-coded settings: the grouping threshold is 10,
  and `write_entries_to_file` has a cap of 131072 entries (rejecting at the
  cap itself, `>=`), 10485760 bytes and comments of 63 characters.
  Loading, deduplication, validation, grouping, the registry lookup, sorting
  and rendering are the same operations as in the configurable script.
 */
module ValidatorScript {
  import opened Wrappers
  import opened PyStr
  import opened Ipv4
  import opened Grouping
  import opened Dedup
  import opened Validation
  import opened OrderedDict
  import opened CidrSort
  import opened OutputFile
  import opened Reconcile
  import opened MainScript

  const ThresholdGroupIpsIntoSubnet: int := 10
  const MaxEntries: int := 131072
  const MaxSizeBytes: int := 10485760
  const MaxCommentLen: int := 63

  /**
    `write_entries_to_file`: 131072 entries or more fail before anything is
    written; otherwise the file is written and the write succeeds only when
    its UTF-8 size is at most 10485760 bytes.
   */
  method WriteEntriesToFile(entries: Items) returns (success: bool, written: Option<string>)
    requires UniqueKeys(entries)
    ensures |entries| >= MaxEntries ==> !success && written == None
    ensures |entries| < MaxEntries ==>
      written == Some(Render(entries, MaxCommentLen)) && (success <==> Utf8Size(written.value) <= MaxSizeBytes)
  {
    if |entries| >= MaxEntries {
      return false, None;
    }
    var text := WriteEntries(entries, MaxCommentLen);
    written := Some(text);
    success := Utf8Size(text) <= MaxSizeBytes;
  }

  /**
    With the 63-character limit a comment of more than 61 characters is
    written as its first 58 characters and `...`, so every comment line's
    `# ` and comment take at most 63 characters; an empty comment leaves
    the bare entry.
   */
  lemma CommentRendering(entry: string, c: string)
    ensures |c| > 61 ==> RenderLine(entry, c, MaxCommentLen) == entry + " # " + c[..58] + "...\n"
    ensures 0 < |c| <= 61 ==> RenderLine(entry, c, MaxCommentLen) == entry + " # " + c + "\n"
    ensures c == [] ==> RenderLine(entry, c, MaxCommentLen) == entry + "\n"
    ensures |"# " + Truncate(c, MaxCommentLen)| <= MaxCommentLen
  {
    TruncateBound(c, MaxCommentLen);
  }

  /**
    `process_lists`: returns the writer's success, together with the sorted
    dict handed to the writer and the text written (`None` when nothing is).
    Entries that left the input are deleted from the previous file's dict,
    the lookup result wins for every current entry, and only current entries
    remain.
   */
  method ProcessLists(inputText: string, outputFile: Option<string>, lookup: Lookup)
    returns (success: bool, entries: Items, written: Option<string>)
    requires InputWellFormed(inputText)
    ensures UniqueKeys(entries) && SortedBy(entries, CidrKey)
    ensures KeySet(entries) <= CurrentEntries(inputText, ThresholdGroupIpsIntoSubnet)
    ensures forall e :: e in CurrentEntries(inputText, ThresholdGroupIpsIntoSubnet) && e in KeySet(ExistingEntries(outputFile)) ==>
      e in KeySet(entries) && Get(entries, e) == Get(ExistingEntries(outputFile), e)
    ensures forall e :: e in CurrentEntries(inputText, ThresholdGroupIpsIntoSubnet) && e !in KeySet(ExistingEntries(outputFile)) ==>
      (e in KeySet(entries) <==> LookupComment(e, lookup).Some?)
    ensures forall e :: (e in CurrentEntries(inputText, ThresholdGroupIpsIntoSubnet) && e !in KeySet(ExistingEntries(outputFile))
        && LookupComment(e, lookup).Some?) ==>
      Get(entries, e) == LookupComment(e, lookup).value
    ensures |entries| >= MaxEntries ==> !success && written == None
    ensures |entries| < MaxEntries ==>
      written == Some(Render(entries, MaxCommentLen)) && (success <==> Utf8Size(written.value) <= MaxSizeBytes)
  {
    var rawAddresses := LoadInputFileEntries(inputText);
    var uniqueAddresses := RemoveDuplicates(rawAddresses);
    var validAddresses := ValidateIpAddresses(uniqueAddresses);
    ValidInputsWellFormed(inputText);
    var groupedAddresses := GroupIpsIntoSubnets(validAddresses, ThresholdGroupIpsIntoSubnet);

    var existingEntries := LoadExistingOutputFileEntries(outputFile);
    var lookedUpAddresses := FetchWhoisInfo(groupedAddresses, existingEntries, lookup);

    var currentEntries := set e | e in groupedAddresses;
    var keptEntries := DropRemoved(existingEntries, currentEntries);
    var merged := Merge(keptEntries, lookedUpAddresses);
    assert merged == Reconciled(groupedAddresses, existingEntries, lookup);
    ReconciledMeaning(groupedAddresses, existingEntries, lookup);
    assert Sortable(merged) by {
      GroupedParse(Networks(validAddresses), ThresholdGroupIpsIntoSubnet);
      forall p | p in merged
        ensures ParseNetwork(p.0).Some?
      {
        assert p.0 in KeySet(merged);
      }
    }
    SortKeepsDict(merged);
    entries := SortEntriesByCidr(merged);
    success, written := WriteEntriesToFile(entries);
  }
}
