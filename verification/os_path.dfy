// os_path_dirname and os_path_basename.
module OsPath {
  import opened CTypes
  import opened CStrings

  const BACKSLASH: byte := 92

  predicate IsSep(ch: byte) { ch == SLASH || ch == BACKSLASH }

  predicate Seps(s: seq<byte>) { forall i :: 0 <= i < |s| ==> IsSep(s[i]) }

  predicate NoSep(s: seq<byte>) { forall i :: 0 <= i < |s| ==> !IsSep(s[i]) }

  // The length without trailing separators.
  function Kept(s: seq<byte>): (n: nat)
    ensures n <= |s|
  {
    if s != [] && IsSep(s[|s| - 1]) then Kept(s[..|s| - 1]) else |s|
  }

  // The position behind the last separator.
  function Start(s: seq<byte>): (n: nat)
    ensures n <= |s|
  {
    if s == [] || IsSep(s[|s| - 1]) then |s| else Start(s[..|s| - 1])
  }

  predicate SepsFrom(s: seq<byte>, n: nat) {
    n <= |s| && (n > 0 ==> !IsSep(s[n - 1])) && forall i :: n <= i < |s| ==> IsSep(s[i])
  }

  predicate NoSepFrom(s: seq<byte>, n: nat) {
    n <= |s| && (n > 0 ==> IsSep(s[n - 1])) && forall i :: n <= i < |s| ==> !IsSep(s[i])
  }

  lemma {:induction false} KeptExactly(s: seq<byte>, n: nat)
    ensures n == Kept(s) <==> SepsFrom(s, n)
  {
    if s != [] && IsSep(s[|s| - 1]) {
      KeptExactly(s[..|s| - 1], n);
    }
  }

  lemma {:induction false} StartExactly(s: seq<byte>, n: nat)
    ensures n == Start(s) <==> NoSepFrom(s, n)
  {
    if s != [] && !IsSep(s[|s| - 1]) {
      StartExactly(s[..|s| - 1], n);
    }
  }

  // The parent directory as it fits into `max` bytes.
  function Dirname(path: seq<byte>, max: nat): Option<seq<byte>> {
    var e := Kept(path);
    var s := Start(path[..e]);
    if path == [] then None
    else if e == 0 then Some([SLASH])
    else if s == 0 then None
    else
      var q := First(max, path[..s - 1]);
      Some(if Kept(q) == 0 then [SLASH] else q[..Kept(q)])
  }

  // The last component as it fits into `max` bytes.
  function Basename(path: seq<byte>, max: nat): Option<seq<byte>> {
    var e := Kept(path);
    if e == 0 then None else Some(First(max, path[Start(path[..e])..e]))
  }

  function DirnameCode(path: seq<byte>): int {
    if path == [] then -1 else if Kept(path) > 0 && Start(path[..Kept(path)]) == 0 then -2 else 0
  }

  method LastNonSep(path: cstring) returns (p: int)
    ensures p == Kept(path) - 1
  {
    hide Kept;
    p := |path| - 1;
    while p >= 0 && IsSep(path[p])
      invariant -1 <= p < |path| && forall k :: p < k < |path| ==> IsSep(path[k])
    {
      p := p - 1;
    }
    KeptExactly(path, p + 1);
  }

  method LastSep(path: cstring, from: nat) returns (p: int, len: nat)
    requires from < |path|
    ensures p == Start(path[..from + 1]) - 1 && len == from - p
  {
    hide Start;
    p, len := from, 0;
    while p >= 0 && !IsSep(path[p])
      invariant -1 <= p <= from && len == from - p
      invariant forall k :: p < k <= from ==> !IsSep(path[k])
    {
      len := len + 1;
      p := p - 1;
    }
    StartExactly(path[..from + 1], p + 1);
  }

  // Zeroes the separators at the end of the first `len` bytes, last one first.
  method DropSeps(a: array<byte>, len: nat, ghost m: nat) returns (p: int)
    requires len <= a.Length && m <= len && (m > 0 ==> !IsSep(a[m - 1]))
    requires forall k :: m <= k < len ==> IsSep(a[k])
    modifies a
    ensures p == m - 1
    ensures forall k :: 0 <= k < a.Length ==> a[k] == if m <= k < len then NUL else old(a[k])
  {
    p := len - 1;
    while p >= 0 && IsSep(a[p])
      invariant m - 1 <= p < len
      invariant forall k :: 0 <= k < a.Length ==> a[k] == if p < k < len then NUL else old(a[k])
    {
      a[p] := NUL;
      p := p - 1;
    }
  }

  // os_path_dirname; an empty path stands for a null pointer.
  method DirnameOf(path: cstring, dirname: array<byte>) returns (rc: int)
    requires dirname.Length >= 2
    modifies dirname
    ensures rc == DirnameCode(path)
    ensures NUL in dirname[..] && CString(dirname[..]) == Dirname(path, dirname.Length - 1).GetOr([])
  {
    hide CString, Kept, Start;
    CopyString(dirname, []);
    if path == [] {
      return -1;
    }
    var p := LastNonSep(path);
    if p < 0 {
      CopyString(dirname, [SLASH]);
      return 0;
    }
    var len: nat;
    p, len := LastSep(path, p);
    if p < 0 {
      CopyString(dirname, []);
      return -2;
    }
    len := p;
    if len >= dirname.Length { len := dirname.Length - 1; }
    var q := path[..len];
    assert q == First(dirname.Length - 1, path[..p]);
    CopyString(dirname, q);
    HoldsExactly(dirname[..], q);
    KeptExactly(q, Kept(q));
    p := DropSeps(dirname, len, Kept(q));
    HoldsExactly(dirname[..], q[..Kept(q)]);
    if p < 0 {
      CopyString(dirname, [SLASH]);
    }
    rc := 0;
  }

  // os_path_basename
  method BasenameOf(path: cstring, basename: array<byte>) returns (rc: int)
    requires basename.Length >= 1
    modifies basename
    ensures rc == if path == [] then -1 else if Kept(path) == 0 then -2 else 0
    ensures NUL in basename[..] && CString(basename[..]) == Basename(path, basename.Length - 1).GetOr([])
  {
    hide CString, Kept, Start;
    CopyString(basename, []);
    if path == [] {
      NothingKept();
      return -1;
    }
    var p := LastNonSep(path);
    if p < 0 {
      return -2;
    }
    ghost var e := p + 1;
    var len: nat;
    p, len := LastSep(path, p);
    if p < 0 {
      p := 0;
    } else {
      p := p + 1;
    }
    if len >= basename.Length { len := basename.Length - 1; }
    assert path[p..p + len] == First(basename.Length - 1, path[p..e]);
    CopyString(basename, path[p..p + len]);
    rc := 0;
  }

  lemma NothingKept()
    ensures Kept([]) == 0
  {}

  // A path taken apart: the parent, separators, the last component, trailing separators.
  ghost predicate Parts(path: seq<byte>, d: seq<byte>, m: seq<byte>, b: seq<byte>, t: seq<byte>) {
    && path == d + m + b + t
    && (d != [] ==> !IsSep(d[|d| - 1]) && m != [])
    && Seps(m) && b != [] && NoSep(b) && Seps(t)
  }

  // Every path with a component in it comes apart ...
  lemma PartsExist(path: seq<byte>) returns (d: seq<byte>, m: seq<byte>, b: seq<byte>, t: seq<byte>)
    requires !Seps(path)
    ensures Parts(path, d, m, b, t)
  {
    hide Kept, Start;
    var e := Kept(path);
    KeptExactly(path, e);
    var s := Start(path[..e]);
    StartExactly(path[..e], s);
    var n := Kept(path[..s]);
    KeptExactly(path[..s], n);
    d, m, b, t := path[..n], path[n..s], path[s..e], path[e..];
    FourParts(path, n, s, e);
  }

  lemma FourParts(path: seq<byte>, n: nat, s: nat, e: nat)
    requires n <= s < e <= |path|
    requires SepsFrom(path, e) && NoSepFrom(path[..e], s) && SepsFrom(path[..s], n)
    ensures Parts(path, path[..n], path[n..s], path[s..e], path[e..])
  {
    var d, m, b, t := path[..n], path[n..s], path[s..e], path[e..];
    assert d + m == path[..s] && path[..s] + b == path[..e] && path[..e] + t == path;
  }

  // `r` is the first `max` bytes of `d` without the separators they end in, "/" if nothing is left.
  predicate CutAt(d: seq<byte>, max: nat, r: seq<byte>) {
    max <= |d| &&
    if Seps(d[..max]) then r == [47]
    else r != [] && r <= d[..max] && !IsSep(r[|r| - 1]) && Seps(d[|r|..max])
  }

  // ... in one way only, and both calls follow it: the base name is the last component, as far as
  // it fits, and the directory name is what precedes the separators before it, "/" when that is
  // nothing.  Without separators before the last component there is no directory name.
  lemma PartsExactly(path: seq<byte>, d: seq<byte>, m: seq<byte>, b: seq<byte>, t: seq<byte>, max: nat)
    requires Parts(path, d, m, b, t)
    ensures Basename(path, max) == Some(b[..Min(max, |b|)])
    ensures max >= |d| ==>
              Dirname(path, max) == if m == [] then None else if d == [] then Some([47]) else Some(d)
    ensures max < |d| ==> Dirname(path, max).Some? && CutAt(d, max, Dirname(path, max).value)
    ensures DirnameCode(path) == if m == [] then -2 else 0
  {
    hide Kept, Start;
    var s, e := |d| + |m|, |d| + |m| + |b|;
    assert path[e - 1] == b[|b| - 1];
    KeptExactly(path, e);
    assert path[..e] == d + m + b;
    assert m != [] ==> path[s - 1] == m[|m| - 1];
    StartExactly(path[..e], s);
    assert path[s..e] == b;
    if m != [] {
      var q := d + m[..|m| - 1];
      assert path[..s - 1] == q;
      if max >= |d| {
        assert First(max, q) == d + m[..Min(max, |q|) - |d|];
        KeptExactly(First(max, q), |d|);
        assert First(max, q)[..|d|] == d;
      } else {
        assert First(max, q) == d[..max];
        KeptExactly(d[..max], Kept(d[..max]));
      }
    }
  }

  // A path of nothing but separators has the root as its directory, without an error, and no base
  // name; the empty path has neither.
  lemma OnlySeps(path: seq<byte>, max: nat)
    requires Seps(path)
    ensures path == [] ==> Dirname(path, max) == None && Basename(path, max) == None && DirnameCode(path) == -1
    ensures path != [] ==>
              Dirname(path, max) == Some([47]) && Basename(path, max) == None && DirnameCode(path) == 0
  {
    KeptExactly(path, 0);
  }

  // Cut or not, a directory name is shorter than the path, or the path is a single separator.
  lemma DirnameShorter(path: seq<byte>, max: nat)
    ensures var d := Dirname(path, max);
            d.Some? ==> |d.value| < |path| || (|path| == 1 && IsSep(path[0]) && d.value == [SLASH])
  {
    hide Kept, Start;
    var e := Kept(path);
    KeptExactly(path, e);
    StartExactly(path[..e], Start(path[..e]));
  }

  // Taking the directory name again and again, until the root or no directory is left.
  function Climb(path: seq<byte>, max: nat): Option<seq<byte>>
    decreases |path|
  {
    var d := Dirname(path, max);
    if d == None then None
    else if d.value == [SLASH] then d
    else
      DirnameShorter(path, max);
      Climb(d.value, max)
  }

  // It ends at the root exactly for the paths that begin with a separator.
  lemma {:induction false} ClimbExactly(path: seq<byte>, max: nat)
    requires max > 0
    ensures Climb(path, max) == if path != [] && (path[0] == 47 || path[0] == 92) then Some([47]) else None
    decreases |path|
  {
    var d := Dirname(path, max);
    if d.Some? && d.value != [SLASH] {
      DirnameShorter(path, max);
      ClimbExactly(d.value, max);
    }
    hide Climb;
    ClimbStep(path, max);
  }

  // One step keeps the first byte.
  lemma ClimbStep(path: seq<byte>, max: nat)
    requires max > 0
    ensures var d := Dirname(path, max);
            var rooted := path != [] && IsSep(path[0]);
            && (d.None? ==> !rooted)
            && (d.Some? && d.value == [SLASH] ==> rooted)
            && (d.Some? ==> d.value != [] && (IsSep(d.value[0]) <==> rooted))
  {
    hide Kept, Start;
    var e := Kept(path);
    KeptExactly(path, e);
    var s := Start(path[..e]);
    StartExactly(path[..e], s);
    if e > 0 && s > 0 {
      var q := First(max, path[..s - 1]);
      KeptExactly(q, Kept(q));
      assert q != [] ==> q[0] == path[0];
      assert q == [] ==> s == 1;
    }
  }
}
