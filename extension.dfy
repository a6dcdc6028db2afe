/** `replaceExtension` of `main.cpp`, which names the output of a conversion. */
module Extension {
  import opened Common

  /** `find_last_of(c)`, with `npos` as -1. */
  function FindLast(s: TString, c: char): (r: int)
    ensures -1 <= r < |s|
    ensures r >= 0 ==> s[r] == c
    ensures forall k :: r < k < |s| ==> s[k] != c
    decreases |s|
  {
    if s == [] then -1
    else if s[|s| - 1] == c then |s| - 1
    else FindLast(s[..|s| - 1], c)
  }

  /** The path cut at its last `.`, which may lie in a directory name, with
      `newExt` appended: the result is a prefix of the path followed by the
      extension, and the part of the path dropped is empty when the path has
      no `.`, and otherwise starts with its only `.`. */
  function ReplaceExtension(filePath: TString, newExt: TString): (r: TString)
    ensures var b := |r| - |newExt|;
      && 0 <= b <= |filePath|
      && r == filePath[..b] + newExt
      && (b == |filePath| ==> forall k :: 0 <= k < |filePath| ==> filePath[k] != '.')
      && (b < |filePath| ==> filePath[b] == '.' && forall k :: b < k < |filePath| ==> filePath[k] != '.')
  {
    (if FindLast(filePath, '.') < 0 then filePath else filePath[..FindLast(filePath, '.')]) + newExt
  }

  /** Without a `.` the extension is simply appended; with one, everything
      from the last `.` on is replaced. Either way the result ends with it. */
  lemma ReplaceExtensionShape(filePath: TString, newExt: TString)
    ensures (forall k :: 0 <= k < |filePath| ==> filePath[k] != '.') ==>
      ReplaceExtension(filePath, newExt) == filePath + newExt
    ensures (exists k :: 0 <= k < |filePath| && filePath[k] == '.') ==>
      exists d :: 0 <= d < |filePath| && filePath[d] == '.' && (forall k :: d < k < |filePath| ==> filePath[k] != '.')
        && ReplaceExtension(filePath, newExt) == filePath[..d] + newExt
    ensures var r := ReplaceExtension(filePath, newExt);
      |r| >= |newExt| && r[|r| - |newExt|..] == newExt
  {
    var d := FindLast(filePath, '.');
    if exists k :: 0 <= k < |filePath| && filePath[k] == '.' {
      var k :| 0 <= k < |filePath| && filePath[k] == '.';
      assert d >= k;
    }
  }

  /** The last `.` of `base + ext` is the first character of `ext` when `ext`
      has no other. */
  lemma {:induction false} FindLastInExtension(base: TString, ext: TString)
    requires |ext| > 0 && ext[0] == '.' && forall k :: 0 < k < |ext| ==> ext[k] != '.'
    ensures FindLast(base + ext, '.') == |base|
    decreases |ext|
  {
    var s := base + ext;
    if |ext| > 1 {
      assert s[..|s| - 1] == base + ext[..|ext| - 1];
      FindLastInExtension(base, ext[..|ext| - 1]);
    }
  }

  /** Replacing by an extension that has a single `.`, at its front, a second
      time changes nothing. */
  lemma ReplaceExtensionIdempotent(filePath: TString, newExt: TString)
    requires |newExt| > 0 && newExt[0] == '.' && forall k :: 0 < k < |newExt| ==> newExt[k] != '.'
    ensures ReplaceExtension(ReplaceExtension(filePath, newExt), newExt) == ReplaceExtension(filePath, newExt)
  {
    var base := if FindLast(filePath, '.') < 0 then filePath else filePath[..FindLast(filePath, '.')];
    FindLastInExtension(base, newExt);
    assert (base + newExt)[..|base|] == base;
  }

  /** The `.bin` name the driver writes to is a fixed point. */
  lemma BinNameIsStable(filePath: TString)
    ensures ReplaceExtension(ReplaceExtension(filePath, ".bin"), ".bin") == ReplaceExtension(filePath, ".bin")
  {
    ReplaceExtensionIdempotent(filePath, ".bin");
  }
}
