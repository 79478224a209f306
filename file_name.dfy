/** `getFileNameWithoutExtension` of the page: `fileName.split(".").slice(0, -1).join(".")`,
    written out with JavaScript's `split` and `join` on a one-character separator, and proved
    equal to "the text before the last dot". */
module FileName {
  import opened Wrappers

  const Dot: char := '.'

  /** Number of occurrences of `c` in `s`. */
  function Occurrences(s: string, c: char): nat
  {
    if |s| == 0 then 0 else (if s[0] == c then 1 else 0) + Occurrences(s[1..], c)
  }

  /** `pieces.join(sep)`: the pieces with one `sep` between neighbours; `[].join(sep)` is "". */
  function Join(pieces: seq<string>, sep: char): string
  {
    if |pieces| == 0 then ""
    else if |pieces| == 1 then pieces[0]
    else pieces[0] + [sep] + Join(pieces[1..], sep)
  }

  /** `s.split(sep)`: the maximal separator-free runs of `s`, one more than there are
      separators (so never empty: `"".split(".")` is `[""]`), and joining them again gives `s`. */
  function Split(s: string, sep: char): (pieces: seq<string>)
    ensures |pieces| == Occurrences(s, sep) + 1
    ensures forall i, j :: 0 <= i < |pieces| && 0 <= j < |pieces[i]| ==> pieces[i][j] != sep
    ensures Join(pieces, sep) == s
    decreases |s|
  {
    if |s| == 0 then [""]
    else
      var rest := Split(s[1..], sep);
      if s[0] == sep then
        assert ([""] + rest)[1..] == rest;
        [""] + rest
      else
        var first := [s[0]] + rest[0];
        assert ([first] + rest[1..])[1..] == rest[1..];
        assert s == [s[0]] + s[1..];
        [first] + rest[1..]
  }

  /** `getFileNameWithoutExtension(fileName)` as the source writes it: split at every dot,
      drop the last piece (`slice(0, -1)`), join the rest with dots. */
  function WithoutExtension(fileName: string): string
  {
    var pieces := Split(fileName, Dot);
    Join(pieces[..|pieces| - 1], Dot)
  }

  /** The reference: the position of the last `c` in `s`, if any. */
  function LastIndexOf(s: string, c: char): (r: Option<nat>)
    ensures r.Some? ==> r.value < |s| && s[r.value] == c && forall i :: r.value < i < |s| ==> s[i] != c
    ensures r.None? ==> forall i :: 0 <= i < |s| ==> s[i] != c
  {
    if |s| == 0 then None
    else if s[|s| - 1] == c then Some(|s| - 1)
    else LastIndexOf(s[..|s| - 1], c)
  }

  /** A string without separators splits into itself alone. */
  lemma {:induction false} SplitWithoutSeparator(s: string, sep: char)
    requires forall i :: 0 <= i < |s| ==> s[i] != sep
    ensures Split(s, sep) == [s]
    decreases |s|
  {
    if |s| > 0 {
      SplitWithoutSeparator(s[1..], sep);
      assert [s[0]] + s[1..] == s;
    }
  }

  /** Splitting `a + sep + b` splits `a` and `b` apart. */
  lemma {:induction false} SplitAtSeparator(a: string, b: string, sep: char)
    ensures Split(a + [sep] + b, sep) == Split(a, sep) + Split(b, sep)
    decreases |a|
  {
    var s := a + [sep] + b;
    if |a| == 0 {
      assert s == [sep] + b;
      assert s[1..] == b;
    } else {
      assert s[0] == a[0];
      assert s[1..] == a[1..] + [sep] + b;
      SplitAtSeparator(a[1..], b, sep);
    }
  }

  /** If `b` holds no dot, the name of `a + "." + b` without its extension is `a`. */
  lemma BeforeLastDot(a: string, b: string)
    requires forall i :: 0 <= i < |b| ==> b[i] != Dot
    ensures WithoutExtension(a + [Dot] + b) == a
  {
    SplitAtSeparator(a, b, Dot);
    SplitWithoutSeparator(b, Dot);
    var pieces := Split(a + [Dot] + b, Dot);
    assert pieces[..|pieces| - 1] == Split(a, Dot);
  }

  /** `getFileNameWithoutExtension` is the text before the last dot ("" when there is no dot),
      and that text, a dot and the extension after it give back the whole name. */
  lemma WithoutExtensionIsTextBeforeLastDot(fileName: string)
    ensures LastIndexOf(fileName, Dot).None? ==> WithoutExtension(fileName) == ""
    ensures LastIndexOf(fileName, Dot).Some? ==>
      var p := LastIndexOf(fileName, Dot).value;
      && WithoutExtension(fileName) == fileName[..p]
      && WithoutExtension(fileName) + [Dot] + fileName[p + 1..] == fileName
  {
    match LastIndexOf(fileName, Dot)
    case None =>
      SplitWithoutSeparator(fileName, Dot);
    case Some(p) =>
      var a, b := fileName[..p], fileName[p + 1..];
      assert fileName == a + [Dot] + b;
      BeforeLastDot(a, b);
  }

  /** The worked cases: "song.wav" gives "song", "a.b.c" gives "a.b", "song" gives "". */
  lemma WithoutExtensionExamples()
    ensures WithoutExtension("song.wav") == "song"
    ensures WithoutExtension("a.b.c") == "a.b"
    ensures WithoutExtension("song") == ""
  {
    assert "song.wav" == "song" + [Dot] + "wav";
    BeforeLastDot("song", "wav");
    assert "a.b.c" == "a.b" + [Dot] + "c";
    BeforeLastDot("a.b", "c");
    SplitWithoutSeparator("song", Dot);
  }
}
