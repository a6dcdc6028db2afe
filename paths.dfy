/** `NS_File::parentPath` on POSIX, where `/` is the only separator. The
    source walks a pointer back from the last character; here an index does. */
module Paths {
  import opened Common

  /** The last index at or before `i` that does not hold a separator, or -1. */
  function LastNonSeparator(path: TString, i: int): (r: int)
    requires -1 <= i < |path|
    ensures -1 <= r <= i
    ensures r >= 0 ==> path[r] != '/'
    ensures forall k :: r < k <= i ==> path[k] == '/'
    decreases i + 1
  {
    if i < 0 then -1 else if path[i] != '/' then i else LastNonSeparator(path, i - 1)
  }

  /** The last index at or before `i` that holds a separator, or -1. */
  function LastSeparator(path: TString, i: int): (r: int)
    requires -1 <= i < |path|
    ensures -1 <= r <= i
    ensures r >= 0 ==> path[r] == '/'
    ensures forall k :: r < k <= i ==> path[k] != '/'
    decreases i + 1
  {
    if i < 0 then -1 else if path[i] == '/' then i else LastSeparator(path, i - 1)
  }

  /** The parent once the last name, ending at `e`, has been found: the text
      before the separator in front of it, `/` when that separator is the
      first character, and nothing when there is none. */
  function ParentBefore(path: TString, e: int): TString
    requires -1 <= e < |path|
  {
    if e < 0 then []
    else if LastSeparator(path, e) < 0 then []
    else if LastSeparator(path, e) == 0 then "/"
    else path[..LastSeparator(path, e)]
  }

  /** What `parentPath` returns: trailing separators are skipped, then the
      last name, and the rest up to the separator before it is the parent. */
  function Parent(path: TString): (r: TString)
    ensures |r| < |path| || r == []
    ensures r == "/" || r == path[..|r|]
  {
    if |path| <= 1 then [] else ParentBefore(path, LastNonSeparator(path, |path| - 1))
  }

  /** `parentPath(path)` with its two backward loops. */
  method ParentPath(path: TString) returns (r: TString)
    ensures r == Parent(path)
  {
    var len := |path|;
    if len > 1 {
      var it := len - 1;
      while path[it] == '/'
        invariant 0 <= it < len
        invariant LastNonSeparator(path, len - 1) == LastNonSeparator(path, it)
        decreases it
      {
        if it == 0 {
          return [];
        }
        it := it - 1;
      }
      ghost var e := it;
      while path[it] != '/'
        invariant 0 <= it <= e
        invariant LastSeparator(path, e) == LastSeparator(path, it)
        decreases it
      {
        if it == 0 {
          return [];
        }
        it := it - 1;
      }
      if it == 0 {
        return "/";
      }
      return path[..it];
    }
    return [];
  }

  // ---------------------------------------------------------------------------
  // Properties of the result

  /** Trailing separators do not matter. */
  lemma TrailingSeparator(path: TString)
    ensures Parent(path + ['/']) == Parent(path)
  {
    var p := path + ['/'];
    if |p| > 1 {
      assert LastNonSeparator(p, |p| - 1) == LastNonSeparator(p, |path| - 1);
      if |path| > 1 {
        LastNonSeparatorPrefix(path, p, |path| - 1);
        var e := LastNonSeparator(path, |path| - 1);
        if e >= 0 {
          LastSeparatorPrefix(path, p, e);
        }
      } else {
        assert LastNonSeparator(p, |path| - 1) == LastNonSeparator(p, 0);
        if p[0] != '/' {
          assert LastSeparator(p, 0) == -1;
        }
      }
    }
  }

  lemma {:induction false} LastNonSeparatorPrefix(path: TString, p: TString, i: int)
    requires -1 <= i < |path| <= |p| && path == p[..|path|]
    ensures LastNonSeparator(path, i) == LastNonSeparator(p, i)
    decreases i + 1
  {
    if i >= 0 {
      assert path[i] == p[i];
      LastNonSeparatorPrefix(path, p, i - 1);
    }
  }

  lemma {:induction false} LastSeparatorPrefix(path: TString, p: TString, i: int)
    requires -1 <= i < |path| <= |p| && path == p[..|path|]
    ensures LastSeparator(path, i) == LastSeparator(p, i)
    decreases i + 1
  {
    if i >= 0 {
      assert path[i] == p[i];
      LastSeparatorPrefix(path, p, i - 1);
    }
  }

  /** The parent is `/` or a proper prefix of the path that stops right
      before a separator, with a name after that separator. */
  lemma ParentIsPrefix(path: TString)
    ensures var r := Parent(path);
      || r == []
      || r == "/"
      || (0 < |r| < |path| && r == path[..|r|] && path[|r|] == '/'
          && exists k :: |r| < k < |path| && path[k] != '/')
  {
    if |path| > 1 {
      var e := LastNonSeparator(path, |path| - 1);
      if e >= 0 {
        var s := LastSeparator(path, e);
        if s > 0 {
          assert s < e && path[e] != '/';
        }
      }
    }
  }

  /** A separator only at the front, apart from trailing ones, gives the root. */
  lemma RootParent(path: TString)
    requires |path| > 1 && path[0] == '/'
    requires exists k :: 0 < k < |path| && path[k] != '/'
    requires forall k, j :: 0 < k < j < |path| && path[k] == '/' ==> path[j] == '/'
    ensures Parent(path) == "/"
  {
    var k :| 0 < k < |path| && path[k] != '/';
    var e := LastNonSeparator(path, |path| - 1);
    assert e >= k;
    assert path[e] != '/';
  }

  /** A path without any separator has no parent. */
  lemma NoSeparatorNoParent(path: TString)
    requires forall k :: 0 <= k < |path| ==> path[k] != '/'
    ensures Parent(path) == []
  {
    if |path| > 1 {
      assert LastNonSeparator(path, |path| - 1) == |path| - 1;
    }
  }
}
