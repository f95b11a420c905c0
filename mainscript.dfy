/**
  The configurable script: `load_input_file_entries`, `write_to_output_file`
  and `process_lists`, which chains deduplication, validation, grouping,
  reconciliation with the previous output, sorting and writing.
  Files are texts: the input file's decoded text, and the output file as
  `None` when it does not exist or `Some(text)` when it does. The registry
  lookup is a parameter (see `Reconcile`).
 */
module MainScript {
  import opened Wrappers
  import opened PyStr
  import opened Ipv4
  import opened Dedup
  import opened Validation
  import opened Grouping
  import opened OrderedDict
  import opened CidrSort
  import opened OutputFile
  import opened Reconcile

  /** The keys of `config.json` the pipeline reads. */
  datatype Config = Config(threshold: int, maxEntries: int, maxCommentLength: int, maxSizeBytes: int)

  /**
    `[line.strip() for line in file]`: one entry per line, which is that line
    with the whitespace (its `\n` included) cut from both ends.
   */
  function LoadInputFileEntries(text: string): (entries: seq<string>)
    ensures |entries| == |FileLines(text)|
    ensures forall i :: 0 <= i < |entries| ==> Trims(FileLines(text)[i], entries[i])
    ensures forall i :: 0 <= i < |entries| ==> '\n' !in entries[i]
    ensures forall i :: 0 <= i < |entries| ==>
      entries[i] == [] || (!IsSpace(entries[i][0]) && !IsSpace(entries[i][|entries[i]| - 1]))
  {
    var lines := FileLines(text);
    FileLineShape(text);
    seq(|lines|, i requires 0 <= i < |lines| => StripInputLine(lines[i]))
  }

  /** `line.strip()` of one line of a file: trimmed, and without its `\n`. */
  function StripInputLine(line: string): (e: string)
    ensures Trims(line, e)
    ensures line != [] && '\n' !in line[..|line| - 1] ==> '\n' !in e
    ensures e == [] || (!IsSpace(e[0]) && !IsSpace(e[|e| - 1]))
  {
    StripInputFacts(line);
    Strip(line)
  }

  lemma StripInputFacts(line: string)
    ensures Trims(line, Strip(line))
    ensures line != [] && '\n' !in line[..|line| - 1] ==> '\n' !in Strip(line)
    ensures Strip(line) == [] || (!IsSpace(Strip(line)[0]) && !IsSpace(Strip(line)[|Strip(line)| - 1]))
  {
    StripTrimmed(line);
    StripTrims(line);
    if line != [] && '\n' !in line[..|line| - 1] {
      StripLine(line);
    }
  }

  /**
    Every line that passes validation also parses as a network. A line such
    as `1.2.3.4/99` passes validation, whose test ignores the suffix, and
    then makes `ip_network` raise during grouping; the model excludes it.
   */
  predicate InputWellFormed(text: string)
  {
    forall e :: e in LoadInputFileEntries(text) && Accepted(e) ==> WellFormed(e)
  }

  /** The entries that reach grouping are those that passed deduplication and validation. */
  lemma ValidInputsWellFormed(text: string)
    requires InputWellFormed(text)
    ensures forall e :: e in AcceptedOnly(RemoveDuplicates(LoadInputFileEntries(text))) ==> WellFormed(e)
  {
    ValidWellFormed(LoadInputFileEntries(text));
  }

  lemma ValidWellFormed(raw: seq<string>)
    requires forall e :: e in raw && Accepted(e) ==> WellFormed(e)
    ensures forall e :: e in AcceptedOnly(RemoveDuplicates(raw)) ==> WellFormed(e)
  {
    var unique := RemoveDuplicates(raw);
    AcceptedOnlyMembers(unique);
    forall e | e in unique
      ensures e in raw
    {
      assert e in Elems(unique);
    }
  }

  /** The set of entries grouping makes from the input file. */
  function CurrentEntries(text: string, threshold: int): set<string>
    requires InputWellFormed(text)
  {
    ValidInputsWellFormed(text);
    GroupedEntries(Networks(AcceptedOnly(RemoveDuplicates(LoadInputFileEntries(text)))), threshold)
  }

  /** `load_existing_output_file_entries` applied to the output file, present or not. */
  function ExistingEntries(file: Option<string>): Items
  {
    if file.None? then [] else Loaded(FileLines(file.value))
  }

  /** Every grouped entry is the text of a valid network, so the sort can parse it. */
  lemma GroupedParse(nets: seq<Network>, threshold: int)
    requires forall n :: n in nets ==> Valid(n)
    ensures forall x :: x in GroupedEntries(nets, threshold) ==> ParseNetwork(x).Some?
  {
    GroupedValid(nets, threshold);
    forall n | n in GroupedNetworks(nets, threshold)
      ensures ParseNetwork(ShowNetwork(n)).Some?
    {
      ParseShowNetwork(n);
    }
  }

  /**
    `write_to_output_file`: more than `fg_max_entries` entries fail before
    anything is written; otherwise the file is written, and the write
    succeeds only when its UTF-8 size is within `fg_max_size_bytes` (the
    oversized file stays on disk).
   */
  method WriteToOutputFile(entries: Items, config: Config) returns (success: bool, written: Option<string>)
    requires UniqueKeys(entries)
    ensures |entries| > config.maxEntries ==> !success && written == None
    ensures |entries| <= config.maxEntries ==>
      written == Some(Render(entries, config.maxCommentLength))
      && (success <==> Utf8Size(written.value) <= config.maxSizeBytes)
  {
    if |entries| > config.maxEntries {
      return false, None;
    }
    var text := WriteEntries(entries, config.maxCommentLength);
    written := Some(text);
    success := Utf8Size(text) <= config.maxSizeBytes;
  }

  /**
    `process_lists`, returning besides the success flag and the two counts
    the sorted dict it hands to the writer and the text it writes (`None`
    when nothing is written).
   */
  method ProcessLists(inputText: string, outputFile: Option<string>, config: Config, lookup: Lookup)
    returns (success: bool, added: nat, removed: nat, entries: Items, written: Option<string>)
    requires InputWellFormed(inputText)
    ensures added == |CurrentEntries(inputText, config.threshold) - KeySet(ExistingEntries(outputFile))|
    ensures removed == |KeySet(ExistingEntries(outputFile)) - CurrentEntries(inputText, config.threshold)|
    ensures UniqueKeys(entries) && SortedBy(entries, CidrKey)
    ensures KeySet(entries) <= CurrentEntries(inputText, config.threshold)
    ensures forall e :: e in CurrentEntries(inputText, config.threshold) && e in KeySet(ExistingEntries(outputFile)) ==>
      e in KeySet(entries) && Get(entries, e) == Get(ExistingEntries(outputFile), e)
    ensures forall e :: e in CurrentEntries(inputText, config.threshold) && e !in KeySet(ExistingEntries(outputFile)) ==>
      (e in KeySet(entries) <==> LookupComment(e, lookup).Some?)
    ensures forall e :: (e in CurrentEntries(inputText, config.threshold) && e !in KeySet(ExistingEntries(outputFile))
        && LookupComment(e, lookup).Some?) ==>
      Get(entries, e) == LookupComment(e, lookup).value
    ensures |entries| > config.maxEntries ==> !success && written == None
    ensures |entries| <= config.maxEntries ==>
      written == Some(Render(entries, config.maxCommentLength))
      && (success <==> Utf8Size(written.value) <= config.maxSizeBytes)
  {
    var rawAddresses := LoadInputFileEntries(inputText);
    var uniqueAddresses := RemoveDuplicates(rawAddresses);
    var validAddresses := ValidateIpAddresses(uniqueAddresses);
    ValidInputsWellFormed(inputText);
    var groupedAddresses := GroupIpsIntoSubnets(validAddresses, config.threshold);

    var existingEntries := LoadExistingOutputFileEntries(outputFile);
    var lookedUpAddresses := FetchWhoisInfo(groupedAddresses, existingEntries, lookup);

    var currentEntries := set e | e in groupedAddresses;
    added := |currentEntries - KeySet(existingEntries)|;
    removed := |KeySet(existingEntries) - currentEntries|;

    var keptEntries := DropRemoved(existingEntries, currentEntries);
    var merged := Merge(keptEntries, lookedUpAddresses);
    assert merged == Reconciled(groupedAddresses, existingEntries, lookup);
    ReconciledMeaning(groupedAddresses, existingEntries, lookup);
    assert Sortable(merged) by {
      GroupedParse(Networks(validAddresses), config.threshold);
      forall p | p in merged
        ensures ParseNetwork(p.0).Some?
      {
        assert p.0 in KeySet(merged);
      }
    }
    SortKeepsDict(merged);
    entries := SortEntriesByCidr(merged);
    success, written := WriteToOutputFile(entries, config);
  }
}
