/**
 * What the row assembler reads off a file's normalised path: the path key
 * (the directories that name the experimental condition) and the sample
 * name (the file name without its replicate counter and extension).
 */
module Paths {
  import opened Text

  /** Python's clamping of a slice bound `i` against a sequence of length `n`. */
  function SliceBound(i: int, n: nat): (b: nat)
    ensures b <= n
    ensures 0 <= i <= n ==> b == i
    ensures -(n as int) <= i < 0 ==> b == n + i
    ensures i > n as int ==> b == n
    ensures i < -(n as int) ==> b == 0
  {
    if i < 0 then (if i + n < 0 then 0 else i + n) else if i > n then n else i
  }

  /** Python's `s[start:stop]`. */
  function PySlice<T>(s: seq<T>, start: int, stop: int): (r: seq<T>)
    ensures 0 <= start <= stop <= |s| ==> r == s[start..stop]
    ensures |r| <= |s|
    ensures forall k | 0 <= k < |r| :: SliceBound(start, |s|) + k < |s| && r[k] == s[SliceBound(start, |s|) + k]
  {
    var a := SliceBound(start, |s|);
    var b := SliceBound(stop, |s|);
    if a < b then s[a..b] else []
  }

  /**
   * The path key `parts[3:-1]`: the normalised path components without the
   * first three and without the file name.
   */
  function PathKey(parts: seq<string>): (key: seq<string>)
    ensures |parts| <= 4 ==> key == []
    ensures |parts| > 4 ==> |key| == |parts| - 4
    ensures |parts| > 4 ==> parts == parts[..3] + key + [parts[|parts| - 1]]
  {
    PySlice(parts, 3, -1)
  }

  /** Where the regex anchor `$` matches: the end of `s`, or just before a final newline. */
  function AnchorAt(s: string): (e: nat)
    ensures e <= |s|
  {
    if |s| > 0 && s[|s| - 1] == '\n' then |s| - 1 else |s|
  }

  /**
   * `(\d+).txt` matches the characters of `s` just before position `e`: a digit,
   * then any character but a newline (the dot is not escaped), then `txt`.
   */
  predicate CounterEndsAt(s: string, e: nat) {
    5 <= e <= |s| && IsDigit(s[e - 5]) && s[e - 4] != '\n' && s[e - 3..e] == "txt"
  }

  /** The file name carries a replicate counter that `re.sub` removes. */
  predicate HasCounter(fileName: string) {
    CounterEndsAt(fileName, AnchorAt(fileName))
  }

  /** A whole replicate suffix: one or more digits, one character but a newline, `txt`. */
  predicate CounterSuffix(x: string) {
    && |x| >= 5
    && (forall k | 0 <= k < |x| - 4 :: IsDigit(x[k]))
    && x[|x| - 4] != '\n'
    && x[|x| - 3..] == "txt"
  }

  /** The start of the run of digits that ends just before position `j`. */
  function DigitRunStart(s: string, j: nat): (p: nat)
    requires j <= |s|
    ensures p <= j && forall k | p <= k < j :: IsDigit(s[k])
    ensures p == 0 || !IsDigit(s[p - 1])
    decreases j
  {
    if j > 0 && IsDigit(s[j - 1]) then DigitRunStart(s, j - 1) else j
  }

  /**
   * `re.sub(r"(\d+).txt$", "", fileName)`.  The leftmost match starts at the
   * first digit of the run before the anchored `.txt`; at most one match
   * exists, since the pattern must end where `$` matches.
   */
  function SampleName(fileName: string): (name: string)
    ensures !HasCounter(fileName) ==> name == fileName
    ensures HasCounter(fileName) ==> |name| + 5 <= |fileName|
  {
    var e := AnchorAt(fileName);
    if CounterEndsAt(fileName, e) then fileName[..DigitRunStart(fileName, e - 4)] + fileName[e..]
    else fileName
  }

  /** The text from the start of the digit run before an anchored `.txt` is a whole replicate suffix. */
  lemma SuffixOfRun(f: string, p: nat)
    requires CounterEndsAt(f, |f|) && p == DigitRunStart(f, |f| - 4)
    ensures p + 5 <= |f| && CounterSuffix(f[p..])
  {
    var e := |f|;
    var x := f[p..];
    assert p == DigitRunStart(f, e - 5);
    forall k | 0 <= k < |x| - 4
      ensures IsDigit(x[k])
    {
      assert x[k] == f[p + k];
    }
    assert x[|x| - 4] == f[e - 4];
    assert x[|x| - 3..] == f[e - 3..e];
  }

  /** A name without a final newline that loses a counter is the kept part followed by a whole suffix. */
  lemma SampleNameSplits(fileName: string)
    requires fileName == [] || fileName[|fileName| - 1] != '\n'
    requires HasCounter(fileName)
    ensures var name := SampleName(fileName);
      && fileName == name + fileName[|name|..]
      && CounterSuffix(fileName[|name|..])
      && (name == [] || !IsDigit(name[|name| - 1]))
  {
    var e := |fileName|;
    assert AnchorAt(fileName) == e;
    var p := DigitRunStart(fileName, e - 4);
    SuffixOfRun(fileName, p);
    assert fileName[e..] == [];
    var name := fileName[..p];
    assert SampleName(fileName) == name;
    assert fileName == name + fileName[p..];
    assert name != [] ==> name[|name| - 1] == fileName[p - 1];
  }

  /** The run of digits before the `.txt` of `kept + suffix` starts where `suffix` starts. */
  lemma DigitRunIsSuffix(kept: string, suffix: string)
    requires kept == [] || !IsDigit(kept[|kept| - 1])
    requires CounterSuffix(suffix)
    ensures DigitRunStart(kept + suffix, |kept| + |suffix| - 4) == |kept|
  {
    var f := kept + suffix;
    var j := |kept| + |suffix| - 4;
    var p := DigitRunStart(f, j);
    assert p >= |kept| by {
      if kept != [] {
        assert f[|kept| - 1] == kept[|kept| - 1];
      }
    }
  }

  /**
   * Conversely, a name made of a part that does not end in a digit and a
   * replicate suffix loses exactly that suffix.
   */
  lemma SampleNameStrips(kept: string, suffix: string)
    requires kept == [] || !IsDigit(kept[|kept| - 1])
    requires CounterSuffix(suffix)
    ensures SampleName(kept + suffix) == kept
  {
    var f := kept + suffix;
    var e := |f|;
    SuffixCounterEnds(kept, suffix);
    assert f[e - 1] == 't' by {
      assert f[e - 1] == suffix[|suffix| - 1] == suffix[|suffix| - 3..][2];
    }
    DigitRunIsSuffix(kept, suffix);
    assert SampleName(f) == f[..|kept|] + f[e..];
    assert f[..|kept|] == kept && f[e..] == [];
  }

  lemma SuffixCounterEnds(kept: string, suffix: string)
    requires CounterSuffix(suffix)
    ensures CounterEndsAt(kept + suffix, |kept| + |suffix|)
  {
    var f := kept + suffix;
    var e := |f|;
    assert f[e - 5] == suffix[|suffix| - 5];
    assert f[e - 4] == suffix[|suffix| - 4];
    assert f[e - 3..e] == suffix[|suffix| - 3..];
  }

  lemma CounterEndsAtPrefix(f: string, g: string)
    requires |f| <= |g| && g[..|f|] == f && CounterEndsAt(f, |f|)
    ensures CounterEndsAt(g, |f|)
  {
    var e := |f|;
    assert g[e - 5] == f[e - 5] && g[e - 4] == f[e - 4];
    assert g[e - 3..e] == f[e - 3..e];
  }

  /** Before a final newline the suffix goes and the newline stays, since `$` also matches there. */
  lemma SampleNameStripsBeforeNewline(kept: string, suffix: string)
    requires kept == [] || !IsDigit(kept[|kept| - 1])
    requires CounterSuffix(suffix)
    ensures SampleName(kept + suffix + "\n") == kept + "\n"
  {
    var f := kept + suffix;
    var g := f + "\n";
    var e := |f|;
    SuffixCounterEnds(kept, suffix);
    assert g[..e] == f;
    CounterEndsAtPrefix(f, g);
    assert AnchorAt(g) == e;
    assert g[..e - 4] == f[..e - 4];
    DigitRunStartOfPrefix(g, f, e - 4);
    DigitRunIsSuffix(kept, suffix);
    assert g[..|kept|] == kept && g[e..] == "\n";
  }

  lemma DigitRunStartOfPrefix(g: string, f: string, j: nat)
    requires j <= |f| && j <= |g| && g[..j] == f[..j]
    ensures DigitRunStart(g, j) == DigitRunStart(f, j)
    decreases j
  {
    if j > 0 {
      assert g[j - 1] == g[..j][j - 1] && f[j - 1] == f[..j][j - 1];
      assert g[..j - 1] == g[..j][..j - 1] && f[..j - 1] == f[..j][..j - 1];
      DigitRunStartOfPrefix(g, f, j - 1);
    }
  }

  /** Worked examples: replicate files of one sample share its name; other names are kept whole. */
  lemma SampleNameOfReplicate()
    ensures SampleName("plant12.txt") == "plant"
  {
    assert CounterSuffix("12.txt") by { assert "12.txt"[3..] == "txt"; }
    SampleNameStrips("plant", "12.txt");
    assert "plant" + "12.txt" == "plant12.txt";
  }

  lemma SampleNameOfCalibration()
    ensures SampleName("ref3.txt") == "ref"
  {
    assert CounterSuffix("3.txt") by { assert "3.txt"[2..] == "txt"; }
    SampleNameStrips("ref", "3.txt");
    assert "ref" + "3.txt" == "ref3.txt";
  }

  /** The dot of the pattern is not escaped: any character may stand before `txt`. */
  lemma SampleNameOfUnescapedDot()
    ensures SampleName("plant7_txt") == "plant"
  {
    assert CounterSuffix("7_txt") by { assert "7_txt"[2..] == "txt"; }
    SampleNameStrips("plant", "7_txt");
    assert "plant" + "7_txt" == "plant7_txt";
  }

  lemma SampleNameWithoutCounter()
    ensures SampleName("plantB.txt") == "plantB.txt"
  {
    assert !IsDigit("plantB.txt"[5]);
  }
}
