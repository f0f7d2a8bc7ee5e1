/** The per-run loop: every entry of the input directory is visited once,
    non-files and filtered-out files are skipped, and each accepted file
    either yields one PNG (success) or one error. Decoding, background
    removal and saving are done by external libraries; what they did with a
    given file is recorded in the entry as its `outcome`. */
module BatchRun {
  import opened Names
  import opened SafetyFilter

  /** What the image library did with one accepted file: saved the result,
      failed to identify the image format, or raised some other error. */
  datatype Outcome = Success | Unidentified | OtherError

  /** One directory entry as the loop sees it. */
  datatype Entry = Entry(isFile: bool, file: FileInfo, outcome: Outcome)

  /** The two run counters and, in order, the output names written. */
  datatype Tally = Tally(processed: nat, errors: nat, written: seq<string>)

  const Start: Tally := Tally(0, 0, [])

  predicate Accepted(e: Entry) {
    e.isFile && IsSafeFile(e.file)
  }

  predicate Saved(e: Entry) {
    Accepted(e) && e.outcome == Success
  }

  predicate Failed(e: Entry) {
    Accepted(e) && e.outcome != Success
  }

  /** One iteration of the loop. */
  function Step(t: Tally, e: Entry): (t': Tally)
    ensures !Accepted(e) ==> t' == t
    ensures Accepted(e) ==> t'.processed + t'.errors == t.processed + t.errors + 1
    ensures t.processed <= t'.processed && t.errors <= t'.errors
    ensures t'.processed - t.processed == |t'.written| - |t.written|
  {
    if !e.isFile then t
    else if !IsSafeFile(e.file) then t
    else match e.outcome
      case Success => Tally(t.processed + 1, t.errors, t.written + [OutputName(e.file.name)])
      case Unidentified => Tally(t.processed, t.errors + 1, t.written)
      case OtherError => Tally(t.processed, t.errors + 1, t.written)
  }

  /** The counters after visiting `es` in order, starting from zero. */
  function Run(es: seq<Entry>): (t: Tally)
    ensures t.processed == |t.written|
    ensures t.processed + t.errors <= |es|
  {
    if es == [] then Start else Step(Run(es[..|es| - 1]), es[|es| - 1])
  }

  /** The entries of `es` that satisfy `keep`, in order. */
  function Filter(es: seq<Entry>, keep: Entry -> bool): (r: seq<Entry>)
    ensures |r| <= |es|
    ensures forall k :: 0 <= k < |r| ==> keep(r[k]) && r[k] in es
  {
    if es == [] then [] else (if keep(es[0]) then [es[0]] else []) + Filter(es[1..], keep)
  }

  /** The output names of the files in `es`, in order. */
  function OutputNames(es: seq<Entry>): (r: seq<string>)
    ensures |r| == |es|
    ensures forall k :: 0 <= k < |es| ==> r[k] == OutputName(es[k].file.name)
  {
    if es == [] then [] else [OutputName(es[0].file.name)] + OutputNames(es[1..])
  }

  lemma {:induction false} FilterAppend(a: seq<Entry>, b: seq<Entry>, keep: Entry -> bool)
    ensures Filter(a + b, keep) == Filter(a, keep) + Filter(b, keep)
  {
    if a == [] {
      assert a + b == b;
    } else {
      assert (a + b)[1..] == a[1..] + b;
      FilterAppend(a[1..], b, keep);
    }
  }

  lemma OutputNamesAppend(a: seq<Entry>, b: seq<Entry>)
    ensures OutputNames(a + b) == OutputNames(a) + OutputNames(b)
  {
  }

  /** Every accepted file is either saved or failed, never both. */
  lemma {:induction false} AcceptedSplits(es: seq<Entry>)
    ensures |Filter(es, Accepted)| == |Filter(es, Saved)| + |Filter(es, Failed)|
  {
    if es != [] {
      AcceptedSplits(es[1..]);
    }
  }

  lemma FilterSingle(e: Entry, keep: Entry -> bool)
    ensures Filter([e], keep) == if keep(e) then [e] else []
  {
  }

  /** The fold agrees with a direct description of the run: the success
      counter is the number of accepted files the library saved, the error
      counter the number it failed on (unidentified or otherwise), and the
      written names are those files' output names in visiting order. */
  lemma {:induction false} RunMatchesReference(es: seq<Entry>)
    ensures Run(es).processed == |Filter(es, Saved)|
    ensures Run(es).errors == |Filter(es, Failed)|
    ensures Run(es).written == OutputNames(Filter(es, Saved))
  {
    if es != [] {
      var init := es[..|es| - 1];
      var last := es[|es| - 1];
      assert es == init + [last];
      assert Run(es) == Step(Run(init), last);
      RunMatchesReference(init);
      FilterAppend(init, [last], Saved);
      FilterAppend(init, [last], Failed);
      FilterSingle(last, Saved);
      FilterSingle(last, Failed);
      OutputNamesAppend(Filter(init, Saved), Filter([last], Saved));
      if Saved(last) {
        assert OutputNames([last]) == [OutputName(last.file.name)];
      }
    }
  }

  /** At the end of a run, processed + errors is the number of accepted
      regular files. */
  lemma EveryAcceptedFileCountedOnce(es: seq<Entry>)
    ensures Run(es).processed + Run(es).errors == |Filter(es, Accepted)|
  {
    RunMatchesReference(es);
    AcceptedSplits(es);
  }

  /** A non-file or rejected entry leaves the counters and outputs alone. */
  lemma RejectedEntryChangesNothing(es: seq<Entry>, e: Entry)
    requires !Accepted(e)
    ensures Run(es + [e]) == Run(es)
  {
  }

  /** An accepted entry bumps exactly one counter: the success counter (and
      one PNG is written) when the library saved it, the error counter when
      the image was unidentified or anything else failed. */
  lemma AcceptedEntryCountedOnce(es: seq<Entry>, e: Entry)
    ensures Accepted(e) && e.outcome == Success ==>
      Run(es + [e]) == Tally(Run(es).processed + 1, Run(es).errors, Run(es).written + [OutputName(e.file.name)])
    ensures Accepted(e) && e.outcome in {Unidentified, OtherError} ==>
      Run(es + [e]) == Tally(Run(es).processed, Run(es).errors + 1, Run(es).written)
  {
  }

  /** The counters do not depend on where the listing is split: visiting
      `b` before `a` gives the same totals as `a` before `b`. */
  lemma ListingOrderDoesNotChangeCounts(a: seq<Entry>, b: seq<Entry>)
    ensures Run(a + b).processed == Run(a).processed + Run(b).processed
    ensures Run(a + b).errors == Run(a).errors + Run(b).errors
    ensures Run(a + b).processed == Run(b + a).processed
    ensures Run(a + b).errors == Run(b + a).errors
  {
    RunMatchesReference(a);
    RunMatchesReference(b);
    RunMatchesReference(a + b);
    RunMatchesReference(b + a);
    FilterAppend(a, b, Saved);
    FilterAppend(a, b, Failed);
    FilterAppend(b, a, Saved);
    FilterAppend(b, a, Failed);
  }

  /** Taking one entry out of a listing removes exactly its own contribution
      to a filter. */
  lemma FilterCountRemoveAt(b: seq<Entry>, j: nat, keep: Entry -> bool)
    requires j < |b|
    ensures |Filter(b, keep)| == |Filter(b[..j] + b[j + 1..], keep)| + |Filter([b[j]], keep)|
  {
    var pre, post := b[..j], b[j + 1..];
    assert b == pre + [b[j]] + post;
    FilterAppend(pre + [b[j]], post, keep);
    FilterAppend(pre, [b[j]], keep);
    FilterAppend(pre, post, keep);
  }

  /** Removing the same entry from two listings with equal multisets leaves
      equal multisets. */
  lemma MultisetRemoveAt(a: seq<Entry>, b: seq<Entry>, j: nat)
    requires multiset(a) == multiset(b)
    requires a != [] && j < |b| && b[j] == a[0]
    ensures multiset(a[1..]) == multiset(b[..j] + b[j + 1..])
  {
    var x := a[0];
    var rest := b[..j] + b[j + 1..];
    assert b == b[..j] + [x] + b[j + 1..];
    assert multiset(b) == multiset(rest) + multiset{x};
    assert a == [x] + a[1..];
    assert multiset(a) == multiset(a[1..]) + multiset{x};
    assert multiset(a[1..]) == multiset(a) - multiset{x};
    assert multiset(rest) == multiset(b) - multiset{x};
  }

  /** How many entries `keep` selects depends only on the multiset of
      entries, not on their order. */
  lemma {:induction false} FilterCountPermutation(a: seq<Entry>, b: seq<Entry>, keep: Entry -> bool)
    requires multiset(a) == multiset(b)
    ensures |Filter(a, keep)| == |Filter(b, keep)|
    decreases |a|
  {
    if a == [] {
      assert |b| == |multiset(b)| == 0;
    } else {
      assert a[0] in multiset(b);
      var j :| 0 <= j < |b| && b[j] == a[0];
      MultisetRemoveAt(a, b, j);
      FilterCountPermutation(a[1..], b[..j] + b[j + 1..], keep);
      FilterCountRemoveAt(b, j, keep);
      FilterSingle(a[0], keep);
    }
  }

  /** The counters depend only on which entries the listing holds, not on
      the order the directory yields them in. */
  lemma ListingPermutationDoesNotChangeCounts(a: seq<Entry>, b: seq<Entry>)
    requires multiset(a) == multiset(b)
    ensures Run(a).processed == Run(b).processed
    ensures Run(a).errors == Run(b).errors
  {
    RunMatchesReference(a);
    RunMatchesReference(b);
    FilterCountPermutation(a, b, Saved);
    FilterCountPermutation(a, b, Failed);
  }

  /** Every file the run writes has suffix `.png`. */
  lemma WrittenNamesArePng(es: seq<Entry>)
    ensures forall k :: 0 <= k < |Run(es).written| ==> Suffix(Run(es).written[k]) == OutputExtension
  {
    RunMatchesReference(es);
    var saved := Filter(es, Saved);
    forall k | 0 <= k < |Run(es).written|
      ensures Suffix(Run(es).written[k]) == OutputExtension
    {
      assert Saved(saved[k]);
      AcceptedNameNonEmpty(saved[k].file.name);
      OutputNameRoundTrip(saved[k].file.name);
    }
  }

  /** The loop itself, with the two counters as locals starting at zero. */
  method ProcessImages(entries: seq<Entry>) returns (processed: nat, errors: nat, written: seq<string>)
    ensures processed == |Filter(entries, Saved)|
    ensures errors == |Filter(entries, Failed)|
    ensures processed + errors == |Filter(entries, Accepted)|
    ensures written == OutputNames(Filter(entries, Saved))
  {
    processed, errors, written := 0, 0, [];
    for i := 0 to |entries|
      invariant Tally(processed, errors, written) == Run(entries[..i])
    {
      var e := entries[i];
      assert entries[..i + 1][..i] == entries[..i];
      if !e.isFile {
        continue;
      }
      if !IsSafeFile(e.file) {
        continue;
      }
      match e.outcome
      case Success =>
        written := written + [OutputName(e.file.name)];
        processed := processed + 1;
      case Unidentified =>
        errors := errors + 1;
      case OtherError =>
        errors := errors + 1;
    }
    assert entries[..|entries|] == entries;
    RunMatchesReference(entries);
    EveryAcceptedFileCountedOnce(entries);
  }
}
