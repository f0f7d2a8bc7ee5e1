/** Parts of a final path component, following the rules of Python's
    `pathlib` for `PurePath.suffix` and `PurePath.stem`, ASCII lower-casing
    as used for the extension test, and the name of the PNG written for an
    input file. */
module Names {

  predicate IsUpper(c: char) {
    'A' <= c <= 'Z'
  }

  /** Lower-cases an ASCII capital letter; every other character is kept. */
  function LowerChar(c: char): (r: char)
    ensures !IsUpper(r)
    ensures !IsUpper(c) ==> r == c
    ensures r == '.' <==> c == '.'
  {
    if IsUpper(c) then (c as int + 32) as char else c
  }

  /** ASCII lower-casing of a whole string, character by character. */
  function LowerAscii(s: string): (r: string)
    ensures |r| == |s|
    ensures forall i :: 0 <= i < |s| ==> r[i] == LowerChar(s[i])
  {
    if s == [] then [] else [LowerChar(s[0])] + LowerAscii(s[1..])
  }

  /** Lower-casing commutes with taking a tail of the string. */
  lemma LowerAsciiDrop(s: string, i: nat)
    requires i <= |s|
    ensures LowerAscii(s)[i..] == LowerAscii(s[i..])
  {
  }

  /** `i` is the position of the last `c` in `s`, or -1 when `s` has none. */
  predicate IsLastOccurrence(s: string, c: char, i: int) {
    && -1 <= i < |s|
    && (0 <= i ==> s[i] == c)
    && (forall j :: i < j < |s| ==> s[j] != c)
  }

  /** Python's `str.rfind` for a single character. */
  function LastIndexOf(s: string, c: char): (i: int)
    ensures IsLastOccurrence(s, c, i)
  {
    if s == [] then -1
    else if s[|s| - 1] == c then |s| - 1
    else LastIndexOf(s[..|s| - 1], c)
  }

  /** There is only one last occurrence. */
  lemma LastOccurrenceUnique(s: string, c: char, i: int, k: int)
    requires IsLastOccurrence(s, c, i)
    requires IsLastOccurrence(s, c, k)
    ensures i == k
  {
  }

  /** Index of the dot that starts the suffix, or -1 when the name has none:
      the last dot counts only when it is neither the first nor the last
      character (so `.bashrc` and `photo.` have no suffix). */
  function SuffixStart(name: string): (i: int)
    ensures i == -1 || (0 < i < |name| - 1 && name[i] == '.')
    ensures 0 <= i ==> '.' !in name[i + 1..]
  {
    var i := LastIndexOf(name, '.');
    if 0 < i < |name| - 1 then i else -1
  }

  /** The shape of a non-empty `pathlib` suffix: a dot followed by at least
      one character, none of them a dot. */
  predicate IsSuffixShape(ext: string) {
    2 <= |ext| && ext[0] == '.' && '.' !in ext[1..]
  }

  /** `PurePath.suffix` of a final component. */
  function Suffix(name: string): (r: string)
    ensures r == "" || IsSuffixShape(r)
    ensures |r| <= |name| && name[|name| - |r|..] == r
  {
    var i := SuffixStart(name);
    if i == -1 then "" else name[i..]
  }

  /** `PurePath.stem` of a final component. */
  function Stem(name: string): (r: string)
    ensures r <= name
    ensures r == "" <==> name == ""
  {
    var i := SuffixStart(name);
    if i == -1 then name else name[..i]
  }

  /** Every name is its stem followed by its suffix. */
  lemma StemSuffixSplit(name: string)
    ensures Stem(name) + Suffix(name) == name
  {
  }

  /** The converse split: a non-empty stem followed by a suffix-shaped
      extension decomposes back into exactly those two parts. */
  lemma {:induction false} SplitRoundTrip(stem: string, ext: string)
    requires stem != ""
    requires IsSuffixShape(ext)
    ensures Stem(stem + ext) == stem
    ensures Suffix(stem + ext) == ext
  {
    var name := stem + ext;
    assert name[|stem|] == '.';
    forall j | |stem| < j < |name|
      ensures name[j] != '.'
    {
      assert name[j] == ext[1..][j - |stem| - 1];
    }
    assert IsLastOccurrence(name, '.', |stem|);
    LastOccurrenceUnique(name, '.', LastIndexOf(name, '.'), |stem|);
    assert SuffixStart(name) == |stem|;
    assert name[..|stem|] == stem;
    assert name[|stem|..] == ext;
  }

  /** Lower-casing a name lower-cases its suffix and moves no dot. */
  lemma SuffixCommutesWithLower(name: string)
    ensures Suffix(LowerAscii(name)) == LowerAscii(Suffix(name))
  {
    var low := LowerAscii(name);
    var i := LastIndexOf(name, '.');
    assert IsLastOccurrence(low, '.', i);
    LastOccurrenceUnique(low, '.', LastIndexOf(low, '.'), i);
    if SuffixStart(name) != -1 {
      LowerAsciiDrop(name, i);
    }
  }

  const OutputExtension: string := ".png"

  /** The file name written for an input: its stem with `.png` appended. */
  function OutputName(name: string): (r: string)
    ensures |r| == |Stem(name)| + |OutputExtension|
    ensures r[|Stem(name)|..] == OutputExtension
  {
    Stem(name) + OutputExtension
  }

  /** The output name of a non-empty input name has suffix `.png` and keeps
      the input's stem. */
  lemma OutputNameRoundTrip(name: string)
    requires name != ""
    ensures Suffix(OutputName(name)) == OutputExtension
    ensures Stem(OutputName(name)) == Stem(name)
  {
    SplitRoundTrip(Stem(name), OutputExtension);
  }

  /** Two inputs are written to the same file exactly when their stems agree. */
  lemma OutputCollisionIffSameStem(a: string, b: string)
    ensures OutputName(a) == OutputName(b) <==> Stem(a) == Stem(b)
  {
  }

  /** `a.png` and `a.jpg` both become `a.png`: the later one overwrites. */
  lemma PngAndJpgShareOutput()
    ensures OutputName("a.png") == OutputName("a.jpg") == "a.png"
  {
    SplitRoundTrip("a", ".png");
    assert "a" + ".png" == "a.png";
    SplitRoundTrip("a", ".jpg");
    assert "a" + ".jpg" == "a.jpg";
  }
}
