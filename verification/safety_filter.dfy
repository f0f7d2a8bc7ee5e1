/** The acceptance filter applied to every regular file found in the input
    directory before it is handed to the image library. The filesystem
    queries it makes (symlink test, strict resolution, size) are inputs here:
    a `FileInfo` records what they returned. */
module SafetyFilter {
  import opened Wrappers
  import opened Names

  /** Largest accepted file size in bytes (20 MiB); the bound is inclusive. */
  const MaxFileSizeBytes: nat := 20 * 1024 * 1024

  /** Accepted suffixes, compared after lower-casing. */
  const AllowedExtensions: set<string> := {".png", ".jpg", ".jpeg"}

  /** What the filesystem reports about one candidate file. A path that
      fails strict resolution (missing target, loop, permission error) is
      `None`. */
  datatype FileInfo = FileInfo(
    isSymlink: bool,
    resolvedPath: Option<string>,
    resolvedRoot: Option<string>,
    size: nat,
    name: string)

  /** The extension test: the lower-cased suffix is one of the allowed ones.
      Only a real suffix of four or five characters can pass, so a passing
      name is never empty. */
  predicate ExtensionAllowed(name: string): (ok: bool)
    ensures ok ==> IsSuffixShape(Suffix(name)) && 4 <= |Suffix(name)| <= 5
    ensures ok ==> name != ""
  {
    LowerAscii(Suffix(name)) in AllowedExtensions
  }

  /** Why a file was turned away. */
  datatype Rejection = Symlink | Unresolved | OutsideRoot | TooLarge | BadExtension

  datatype Verdict = Accept | Reject(reason: Rejection)

  /** The individual checks the filter is made of. */
  datatype Check = NotSymlink | Resolves | InsideRoot | WithinSizeLimit | AllowedSuffix

  predicate Passes(c: Check, f: FileInfo) {
    match c
    case NotSymlink => !f.isSymlink
    case Resolves => f.resolvedPath.Some? && f.resolvedRoot.Some?
    case InsideRoot =>
      // containment is a plain string-prefix test on the resolved paths
      f.resolvedPath.Some? && f.resolvedRoot.Some? && f.resolvedRoot.value <= f.resolvedPath.value
    case WithinSizeLimit => f.size <= MaxFileSizeBytes
    case AllowedSuffix => ExtensionAllowed(f.name)
  }

  function ReasonFor(c: Check): Rejection {
    match c
    case NotSymlink => Symlink
    case Resolves => Unresolved
    case InsideRoot => OutsideRoot
    case WithinSizeLimit => TooLarge
    case AllowedSuffix => BadExtension
  }

  /** The check whose failure is reported with a given reason. */
  function CheckFor(r: Rejection): (c: Check)
    ensures ReasonFor(c) == r
  {
    match r
    case Symlink => NotSymlink
    case Unresolved => Resolves
    case OutsideRoot => InsideRoot
    case TooLarge => WithinSizeLimit
    case BadExtension => AllowedSuffix
  }

  /** The order in which the source applies the checks. */
  const SourceOrder: seq<Check> := [NotSymlink, Resolves, InsideRoot, WithinSizeLimit, AllowedSuffix]

  /** Position of the first check in `order` that `f` fails, or `|order|`
      when it passes them all. */
  function FirstFailing(order: seq<Check>, f: FileInfo): (i: nat)
    ensures i <= |order|
    ensures forall j :: 0 <= j < i ==> Passes(order[j], f)
    ensures i < |order| ==> !Passes(order[i], f)
  {
    if order == [] then 0
    else if !Passes(order[0], f) then 0
    else 1 + FirstFailing(order[1..], f)
  }

  /** The filter, branch for branch as the source runs it. */
  function Classify(f: FileInfo): (v: Verdict)
    ensures v.Reject? ==> !Passes(CheckFor(v.reason), f)
    ensures v.Accept? <==> Passes(NotSymlink, f) && Passes(Resolves, f) && Passes(InsideRoot, f)
                           && Passes(WithinSizeLimit, f) && Passes(AllowedSuffix, f)
  {
    if f.isSymlink then Reject(Symlink)
    else if f.resolvedPath.None? || f.resolvedRoot.None? then Reject(Unresolved)
    else if !(f.resolvedRoot.value <= f.resolvedPath.value) then Reject(OutsideRoot)
    else if f.size > MaxFileSizeBytes then Reject(TooLarge)
    else if !ExtensionAllowed(f.name) then Reject(BadExtension)
    else Accept
  }

  /** Where the first failing check of the source order sits, written out
      check by check. */
  lemma FirstFailingInSourceOrder(f: FileInfo)
    ensures FirstFailing(SourceOrder, f) ==
      if !Passes(NotSymlink, f) then 0
      else if !Passes(Resolves, f) then 1
      else if !Passes(InsideRoot, f) then 2
      else if !Passes(WithinSizeLimit, f) then 3
      else if !Passes(AllowedSuffix, f) then 4
      else 5
  {
    var o1 := [Resolves, InsideRoot, WithinSizeLimit, AllowedSuffix];
    var o2 := [InsideRoot, WithinSizeLimit, AllowedSuffix];
    var o3 := [WithinSizeLimit, AllowedSuffix];
    var o4 := [AllowedSuffix];
    assert o4[1..] == [];
    var k4 := if !Passes(AllowedSuffix, f) then 0 else 1;
    assert FirstFailing(o4, f) == k4;
    assert o3[1..] == o4;
    var k3 := if !Passes(WithinSizeLimit, f) then 0 else 1 + k4;
    assert FirstFailing(o3, f) == k3;
    assert o2[1..] == o3;
    var k2 := if !Passes(InsideRoot, f) then 0 else 1 + k3;
    assert FirstFailing(o2, f) == k2;
    assert o1[1..] == o2;
    var k1 := if !Passes(Resolves, f) then 0 else 1 + k2;
    assert FirstFailing(o1, f) == k1;
    assert SourceOrder[1..] == o1;
    assert FirstFailing(SourceOrder, f) == if !Passes(NotSymlink, f) then 0 else 1 + k1;
  }

  /** The source's verdict is the first failing check in its order, reported
      with that check's reason. */
  lemma ClassifyFollowsSourceOrder(f: FileInfo)
    ensures Classify(f) == (var i := FirstFailing(SourceOrder, f);
                            if i == |SourceOrder| then Accept else Reject(ReasonFor(SourceOrder[i])))
  {
    FirstFailingInSourceOrder(f);
  }

  /** True when the file may be processed. */
  function IsSafeFile(f: FileInfo): (ok: bool)
    ensures ok <==> forall c: Check :: Passes(c, f)
    ensures f.isSymlink ==> !ok
    ensures f.resolvedPath.None? || f.resolvedRoot.None? ==> !ok
    ensures ok ==> f.resolvedPath.Some? && f.resolvedRoot.Some? && f.resolvedRoot.value <= f.resolvedPath.value
    ensures ok ==> f.size <= MaxFileSizeBytes
    ensures ok ==> LowerAscii(Suffix(f.name)) in {".png", ".jpg", ".jpeg"}
  {
    Classify(f).Accept?
  }

  /** Running the same checks in any order that includes each of them gives
      the same accept/reject answer; only the reported reason can differ. */
  lemma CheckOrderIrrelevant(order: seq<Check>, f: FileInfo)
    requires forall c: Check :: c in order
    ensures FirstFailing(order, f) == |order| <==> IsSafeFile(f)
  {
    var i := FirstFailing(order, f);
    if i == |order| {
      forall c: Check
        ensures Passes(c, f)
      {
        assert c in order;
        var j :| 0 <= j < |order| && order[j] == c;
      }
    }
  }

  /** Size is compared with `>`: exactly 20 MiB passes, one byte more fails. */
  lemma SizeLimitBoundary(f: FileInfo)
    requires forall c: Check :: c != WithinSizeLimit ==> Passes(c, f)
    ensures MaxFileSizeBytes == 20971520
    ensures f.size == 20971520 ==> IsSafeFile(f)
    ensures f.size == 20971521 ==> !IsSafeFile(f)
  {
  }

  /** A name without a suffix never passes the extension check. */
  lemma NoSuffixRejected(name: string)
    requires Suffix(name) == ""
    ensures !ExtensionAllowed(name)
  {
  }

  /** Names that differ only in the case of ASCII letters get the same
      answer from the extension check. */
  lemma ExtensionCheckIgnoresCase(a: string, b: string)
    requires LowerAscii(a) == LowerAscii(b)
    ensures ExtensionAllowed(a) <==> ExtensionAllowed(b)
  {
    SuffixCommutesWithLower(a);
    SuffixCommutesWithLower(b);
  }

  /** `photo.JPG` passes the extension check. */
  lemma UpperCaseJpgAccepted()
    ensures ExtensionAllowed("photo.JPG")
  {
    SplitRoundTrip("photo", ".JPG");
    assert "photo" + ".JPG" == "photo.JPG";
    assert LowerAscii(".JPG") == ".jpg";
  }

  /** An accepted file has a non-empty name. */
  lemma AcceptedNameNonEmpty(name: string)
    requires ExtensionAllowed(name)
    ensures name != ""
  {
  }

  /** `path` names an entry strictly below the directory `root`, comparing
      whole path components. */
  predicate IsDescendant(root: string, path: string) {
    root < path && ((|root| > 0 && root[|root| - 1] == '/') || path[|root|] == '/')
  }

  /** The string-prefix test admits every descendant, but also a sibling
      whose name merely extends the root's last component. */
  lemma PrefixCheckWeakerThanDescendant()
    ensures forall root, path :: IsDescendant(root, path) ==> root <= path
    ensures !IsDescendant("/in", "/in2/x.png")
    ensures IsSafeFile(FileInfo(false, Some("/in2/x.png"), Some("/in"), 0, "x.png"))
  {
    assert "/in2/x.png"[3] == '2';
    SplitRoundTrip("x", ".png");
    assert "x" + ".png" == "x.png";
    assert LowerAscii(".png") == ".png";
    assert "/in" <= "/in2/x.png";
  }
}
