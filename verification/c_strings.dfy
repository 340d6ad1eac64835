// The C string operations of the configuration reader: blanks, and trimming in place.
module CStrings {
  import opened CTypes

  const NUL: byte := 0
  const TAB: byte := 9
  const LF: byte := 10
  const CR: byte := 13
  const SPACE: byte := 32
  const SLASH: byte := 47

  predicate IsBlank(ch: byte) { ch == SPACE || ch == TAB }

  predicate Blanks(s: seq<byte>) { forall i :: 0 <= i < |s| ==> IsBlank(s[i]) }

  // No blank at either end.
  predicate Trimmed(s: seq<byte>) { s == [] || (!IsBlank(s[0]) && !IsBlank(s[|s| - 1])) }

  // strspn(s, " \t")
  function Lead(s: seq<byte>): (n: nat)
    ensures n <= |s|
  {
    if s != [] && IsBlank(s[0]) then Lead(s[1..]) + 1 else 0
  }

  // The length without trailing blanks.
  function Core(s: seq<byte>): (n: nat)
    ensures n <= |s|
  {
    if s != [] && IsBlank(s[|s| - 1]) then Core(s[..|s| - 1]) else |s|
  }

  function TrimLeft(s: seq<byte>): seq<byte> { s[Lead(s)..] }

  function TrimRight(s: seq<byte>): seq<byte> { s[..Core(s)] }

  function Trim(s: seq<byte>): seq<byte> { TrimRight(TrimLeft(s)) }

  predicate BlankBelow(s: seq<byte>, n: nat) {
    n <= |s| && (n < |s| ==> !IsBlank(s[n])) && forall i :: 0 <= i < n ==> IsBlank(s[i])
  }

  predicate BlankFrom(s: seq<byte>, n: nat) {
    n <= |s| && (n > 0 ==> !IsBlank(s[n - 1])) && forall i :: n <= i < |s| ==> IsBlank(s[i])
  }

  lemma {:induction false} LeadExactly(s: seq<byte>, n: nat)
    ensures n == Lead(s) <==> BlankBelow(s, n)
  {
    if s != [] && IsBlank(s[0]) && n > 0 {
      LeadExactly(s[1..], n - 1);
    }
  }

  lemma {:induction false} CoreExactly(s: seq<byte>, n: nat)
    ensures n == Core(s) <==> BlankFrom(s, n)
  {
    if s != [] && IsBlank(s[|s| - 1]) {
      CoreExactly(s[..|s| - 1], n);
    }
  }

  lemma LeadOfPrefix(s: seq<byte>, k: nat)
    requires k <= |s|
    ensures Lead(s[..k]) == Min(Lead(s), k)
  {
    hide Lead;
    LeadExactly(s, Lead(s));
    LeadExactly(s[..k], Min(Lead(s), k));
  }

  // Trimming finds the one trimmed string that is left after taking blanks off both ends ...
  lemma TrimExactly(b0: seq<byte>, t: seq<byte>, b1: seq<byte>)
    requires Blanks(b0) && Blanks(b1) && Trimmed(t)
    ensures Trim(b0 + t + b1) == t
  {
    var s := b0 + t + b1;
    hide Lead, Core;
    if t == [] {
      LeadExactly(s, |s|);
    } else {
      LeadExactly(s, |b0|);
      assert TrimLeft(s) == t + b1;
      CoreExactly(t + b1, |t|);
    }
  }

  // ... and every string is such a sum.
  lemma TrimParts(s: seq<byte>) returns (b0: seq<byte>, b1: seq<byte>)
    ensures Blanks(b0) && Blanks(b1) && Trimmed(Trim(s)) && s == b0 + Trim(s) + b1
  {
    hide Lead, Core;
    var n, l := Lead(s), TrimLeft(s);
    var m := Core(l);
    b0, b1 := s[..n], l[m..];
    LeadTrimmed(s, n);
    CoreTrimmed(l, m);
    hide Blanks, Trimmed;
    assert s == b0 + l && l == l[..m] + b1;
    assert b0 + (l[..m] + b1) == b0 + l[..m] + b1;
  }

  lemma LeadTrimmed(s: seq<byte>, n: nat)
    requires n == Lead(s)
    ensures Blanks(s[..n]) && (n < |s| ==> !IsBlank(s[n..][0]))
  {
    LeadExactly(s, n);
  }

  lemma CoreTrimmed(l: seq<byte>, m: nat)
    requires m == Core(l) && (l != [] ==> !IsBlank(l[0]))
    ensures Blanks(l[m..]) && Trimmed(l[..m])
  {
    CoreExactly(l, m);
  }

  // The buffer holds the string `s` and a terminator.
  ghost predicate Holds(buf: seq<byte>, s: seq<byte>) {
    && |s| < |buf| && buf[|s|] == NUL
    && forall k :: 0 <= k < |s| ==> buf[k] == s[k] && s[k] != NUL
  }

  lemma {:induction false} HoldsItsString(buf: seq<byte>)
    requires NUL in buf
    ensures Holds(buf, CString(buf))
  {
    if buf[0] != NUL {
      HoldsItsString(buf[1..]);
    }
  }

  lemma {:induction false} HoldsOneString(buf: seq<byte>, s: seq<byte>)
    requires Holds(buf, s)
    ensures NUL in buf && CString(buf) == s
  {
    if s == [] {
      assert buf[0] == NUL;
    } else {
      assert buf[0] == s[0];
      HoldsOneString(buf[1..], s[1..]);
    }
  }

  lemma HoldsExactly(buf: seq<byte>, s: seq<byte>)
    ensures Holds(buf, s) <==> NUL in buf && CString(buf) == s
  {
    hide CString, Holds;
    if NUL in buf {
      HoldsItsString(buf);
    }
    if Holds(buf, s) {
      HoldsOneString(buf, s);
    }
  }

  // strncpy of a whole string followed by its terminator.
  method CopyString(dst: array<byte>, src: cstring)
    requires |src| < dst.Length
    modifies dst
    ensures NUL in dst[..] && CString(dst[..]) == src
    ensures forall k :: |src| < k < dst.Length ==> dst[k] == old(dst[k])
  {
    CopyInto(dst, 0, src);
    dst[|src|] := NUL;
    hide CString, Put;
    HoldsExactly(dst[..], src);
  }

  method StrLen(a: array<byte>) returns (n: nat)
    requires NUL in a[..]
    ensures n == |CString(a[..])| < a.Length
  {
    ghost var s := CString(a[..]);
    HoldsExactly(a[..], s);
    hide CString;
    n := 0;
    while a[n] != NUL
      invariant n <= |s|
      decreases |s| - n
    {
      n := n + 1;
    }
  }

  // Copies the string from `num` on down to the start of the buffer.
  method ShiftDown(a: array<byte>, num: nat, ghost s: seq<byte>)
    requires Holds(a[..], s) && num <= |s|
    modifies a
    ensures Holds(a[..], s[num..])
    ensures forall k :: |s| - num < k < a.Length ==> a[k] == old(a[k])
  {
    assert forall k :: 0 <= k < |s| ==> a[k] == s[k] && s[k] != NUL;
    ghost var n := |s| - num;
    hide Holds;
    var i := 0;
    var ch := a[num];
    a[0] := ch;
    while ch != NUL
      invariant i <= n && ch == if i < n then s[num + i] else NUL
      invariant forall k :: 0 <= k < i ==> a[k] == s[num + k]
      invariant a[i] == ch && forall k :: i < k < a.Length ==> a[k] == old(a[k])
      decreases n - i
    {
      i := i + 1;
      ch := a[num + i];
      a[i] := ch;
    }
    Shifted(a[..], s[num..]);
  }

  lemma Shifted(buf: seq<byte>, t: seq<byte>)
    requires |t| < |buf| && buf[|t|] == NUL
    requires forall k :: 0 <= k < |t| ==> buf[k] == t[k] && t[k] != NUL
    ensures Holds(buf, t)
  {}

  method LeadingBlanks(a: array<byte>) returns (num: nat)
    requires NUL in a[..]
    ensures num == Lead(CString(a[..]))
  {
    ghost var s := CString(a[..]);
    HoldsExactly(a[..], s);
    hide CString, Lead;
    num := 0;
    while IsBlank(a[num])
      invariant num <= |s| && forall k :: 0 <= k < num ==> IsBlank(s[k])
      decreases |s| - num
    {
      num := num + 1;
    }
    LeadExactly(s, num);
  }

  // trim_left_blank: the string is shifted down over its leading blanks.
  method TrimLeftBlank(a: array<byte>)
    requires NUL in a[..]
    modifies a
    ensures NUL in a[..] && CString(a[..]) == TrimLeft(CString(old(a[..])))
    ensures forall k :: |CString(a[..])| < k < a.Length ==> a[k] == old(a[k])
  {
    ghost var s := CString(a[..]);
    var num := LeadingBlanks(a);
    if num == 0 {
      return;
    }
    HoldsExactly(a[..], s);
    hide CString, Lead, Holds;
    ShiftDown(a, num, s);
    HoldsExactly(a[..], s[num..]);
  }

  // Zeroes the blanks before position `n`, last one first; `m` is the last position below `n`
  // that follows a byte other than a blank.
  method ZeroBlanks(a: array<byte>, n: nat, ghost m: nat)
    requires m <= n <= a.Length
    requires (m > 0 ==> !IsBlank(a[m - 1])) && forall k :: m <= k < n ==> IsBlank(a[k])
    modifies a
    ensures forall k :: 0 <= k < a.Length ==> a[k] == if m <= k < n then NUL else old(a[k])
  {
    var i := n;
    while i > 0 && IsBlank(a[i - 1])
      invariant m <= i <= n
      invariant forall k :: 0 <= k < a.Length ==> a[k] == if i <= k < n then NUL else old(a[k])
    {
      i := i - 1;
      a[i] := NUL;
    }
  }

  // trim_right_blank: the trailing blanks are overwritten with zeros.
  method TrimRightBlank(a: array<byte>)
    requires NUL in a[..]
    modifies a
    ensures NUL in a[..] && CString(a[..]) == TrimRight(CString(old(a[..])))
    ensures forall k :: 0 <= k < a.Length ==>
              a[k] == if |CString(a[..])| <= k < |CString(old(a[..]))| then NUL else old(a[k])
  {
    ghost var s := CString(a[..]);
    ghost var m := Core(s);
    HoldsExactly(a[..], s);
    hide CString, Core;
    var n := StrLen(a);
    CoreExactly(s, m);
    ZeroBlanks(a, n, m);
    HoldsExactly(a[..], s[..m]);
  }

  // trim_blank: the buffer holds the trimmed string, and nothing behind the old string is touched.
  method TrimBlank(a: array<byte>)
    requires NUL in a[..]
    modifies a
    ensures NUL in a[..] && CString(a[..]) == Trim(CString(old(a[..])))
    ensures forall k :: |CString(old(a[..]))| < k < a.Length ==> a[k] == old(a[k])
  {
    ghost var s := CString(a[..]);
    hide CString, Lead, Core;
    TrimLeftBlank(a);
    TrimRightBlank(a);
  }
}
