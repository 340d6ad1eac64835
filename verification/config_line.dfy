// Lines of a configuration file: what ConfigFile.cpp makes of one line of text.
module ConfigLines {
  import opened CTypes
  import opened CStrings

  const EQUALS: byte := 61
  const OPEN: byte := 91
  const CLOSE: byte := 93

  const NAME_MAX: int := 63     // MAX_INI_SECTION_NAME_LEN - 1 and MAX_INI_KEY_NAME_LEN - 1
  const VALUE_MAX: int := 1023  // MAX_INI_VALUE_LEN - 1

  datatype Line = Other | Section(name: seq<byte>) | Pair(key: seq<byte>, value: seq<byte>)

  predicate Slashes(s: seq<byte>, i: int) {
    0 <= i < |s| - 1 && s[i] == SLASH && s[i + 1] == SLASH
  }

  // strstr(s, "//"): the first position, or |s| where the C function answers null.
  function CommentAt(s: seq<byte>): (n: nat)
    ensures n <= |s|
  {
    if s == [] || Slashes(s, 0) then 0 else CommentAt(s[1..]) + 1
  }

  // strchr(s, ch): the first position, or |s| where the C function answers null.
  function IndexOf(s: seq<byte>, ch: byte): (n: nat)
    ensures n <= |s|
  {
    if s == [] || s[0] == ch then 0 else IndexOf(s[1..], ch) + 1
  }

  predicate FirstSlashes(s: seq<byte>, n: nat) {
    && n <= |s| && (n < |s| ==> Slashes(s, n))
    && forall i :: 0 <= i < n ==> !Slashes(s, i)
  }

  predicate FirstIndex(s: seq<byte>, ch: byte, n: nat) {
    && n <= |s| && (n < |s| ==> s[n] == ch)
    && forall i :: 0 <= i < n ==> s[i] != ch
  }

  lemma {:induction false} CommentAtExactly(s: seq<byte>, n: nat)
    ensures n == CommentAt(s) <==> FirstSlashes(s, n)
  {
    if s != [] && !Slashes(s, 0) {
      assert forall i {:trigger Slashes(s, i)} :: 0 < i ==> (Slashes(s, i) <==> Slashes(s[1..], i - 1));
      assert forall i {:trigger Slashes(s[1..], i)} :: 0 <= i ==> (Slashes(s, i + 1) <==> Slashes(s[1..], i));
      if n > 0 {
        CommentAtExactly(s[1..], n - 1);
      }
    }
  }

  lemma {:induction false} IndexOfExactly(s: seq<byte>, ch: byte, n: nat)
    ensures n == IndexOf(s, ch) <==> FirstIndex(s, ch, n)
  {
    if s != [] && s[0] != ch && n > 0 {
      IndexOfExactly(s[1..], ch, n - 1);
    }
  }

  // The line without its line feed and the carriage return before it.
  function Chop(line: seq<byte>): (t: seq<byte>)
    ensures |t| <= |line| && t == line[..|t|]
  {
    var t := if line != [] && line[|line| - 1] == LF then line[..|line| - 1] else line;
    if t != [] && t[|t| - 1] == CR then t[..|t| - 1] else t
  }

  // The line without its ending and its comment.
  function Text(line: seq<byte>): seq<byte> {
    var t := Chop(line);
    t[..CommentAt(t)]
  }

  // "[name]" with anything but nothing between the brackets.
  function Bracketed(t: seq<byte>, max: nat): Option<seq<byte>> {
    if |t| > 2 && t[0] == OPEN && t[|t| - 1] == CLOSE then Some(First(max, t[1..|t| - 1])) else None
  }

  // "key = value", split at the first equals sign.
  function PairIn(t: seq<byte>, keyMax: nat, valueMax: nat): Option<(seq<byte>, seq<byte>)> {
    var eq := IndexOf(t, EQUALS);
    if eq == |t| then None
    else
      var key := Trim(First(keyMax, TrimLeft(t[..eq])));
      if key == [] then None else Some((key, Trim(First(valueMax, t[eq + 1..]))))
  }

  function SectionOf(line: seq<byte>, max: nat): Option<seq<byte>> {
    Bracketed(Trim(Text(line)), max)
  }

  function PairOf(line: seq<byte>, keyMax: nat, valueMax: nat): Option<(seq<byte>, seq<byte>)> {
    PairIn(Text(line), keyMax, valueMax)
  }

  function Parse(line: seq<byte>): Line {
    var sec := SectionOf(line, NAME_MAX);
    if sec.Some? then Section(sec.value)
    else
      var kv := PairOf(line, NAME_MAX, VALUE_MAX);
      if kv.Some? then Pair(kv.value.0, kv.value.1) else Other
  }

  lemma Chopped(line: seq<byte>, i: nat)
    requires |Chop(line)| <= i < |line|
    ensures line[i] == LF || line[i] == CR
  {}

  lemma CommentInPrefix(s: seq<byte>, len: nat)
    requires len <= |s|
    ensures CommentAt(s[..len]) == if CommentAt(s) < len - 1 then CommentAt(s) else len
  {
    var c, t := CommentAt(s), s[..len];
    CommentAtExactly(s, c);
    hide CommentAt;
    forall i | 0 <= i < len ensures Slashes(t, i) <==> i < len - 1 && Slashes(s, i) {}
    CommentAtExactly(t, if c < len - 1 then c else len);
  }

  lemma CommentSkips(s: seq<byte>, at: nat)
    requires at <= Lead(s)
    ensures CommentAt(s) == at + CommentAt(s[at..])
  {
    var t := s[at..];
    CommentAtExactly(t, CommentAt(t));
    LeadExactly(s, Lead(s));
    hide CommentAt, Lead;
    forall i | 0 <= i < |s| ensures Slashes(s, i) <==> at <= i && Slashes(t, i - at) {}
    CommentAtExactly(s, at + CommentAt(t));
  }

  // find_non_blank: a non-positive length answers the buffer itself.
  function FindNonBlank(buffer: seq<byte>, len: int): Option<nat> {
    if len <= 0 then Some(0)
    else
      var num := Lead(buffer);
      if num >= len then None else Some(num)
  }

  // find_comment_str: the comment must lie within the first `len` bytes.
  function FindComment(buffer: seq<byte>, len: int): (r: Option<nat>)
    ensures 0 <= len <= |buffer| ==> r.GetOr(len) == CommentAt(buffer[..len])
    ensures r.Some? ==> r.value < len - 1 && r.value < |buffer|
  {
    if len <= 0 then None
    else
      var c := CommentAt(buffer);
      assert len <= |buffer| ==> CommentAt(buffer[..len]) == if c < len - 1 then c else len by {
        if len <= |buffer| { CommentInPrefix(buffer, len); }
      }
      if c == |buffer| || c >= len - 1 then None else Some(c)
  }

  // rfind_non_blank over the first `len` bytes.
  method RFindNonBlank(buffer: cstring, len: nat) returns (r: Option<nat>)
    requires len <= |buffer|
    ensures var n := Core(buffer[..len]); r == if n == 0 then None else Some(n - 1)
  {
    hide Core;
    var p := len - 1;
    while p >= 0 && IsBlank(buffer[p])
      invariant -1 <= p < len && forall k :: p < k < len ==> IsBlank(buffer[k])
    {
      p := p - 1;
    }
    CoreExactly(buffer[..len], p + 1);
    r := if p < 0 then None else Some(p);
  }

  // The line length that is left after dropping the line ending.
  method ChopLength(buffer: cstring) returns (len: nat)
    requires buffer != []
    ensures len == |Chop(buffer)|
  {
    len := |buffer|;
    if buffer[len - 1] == LF { len := len - 1; }
    if len > 0 && buffer[len - 1] == CR { len := len - 1; }
  }

  method IsComment(buffer: cstring) returns (rc: bool)
    ensures rc <==> Slashes(buffer, Lead(buffer))
  {
    var at := FindNonBlank(buffer, |buffer|);
    if buffer == [] || at.None? {
      return false;
    }
    rc := Slashes(buffer[at.value..], 0);
  }

  // The text of a line from its first byte that is no blank.
  lemma LeadText(line: seq<byte>)
    ensures var num, len, n := Lead(line), |Chop(line)|, |Text(line)|;
            && n <= len && Text(line) == line[..n] && Lead(Text(line)) == Min(num, n)
            && (num < len ==> num <= n && CommentAt(line[num..len]) == n - num)
            && n == CommentAt(Chop(line))
  {
    var num, t, n := Lead(line), Chop(line), |Text(line)|;
    assert Text(line) == line[..n];
    LeadOfPrefix(line, n);
    LeadOfPrefix(line, |t|);
    hide Chop, CommentAt, Lead;
    if num < |t| {
      CommentSkips(t, num);
      assert t[num..] == line[num..|t|];
    }
  }

  lemma BlankText(t: seq<byte>)
    requires Lead(t) == |t|
    ensures Trim(t) == [] && IndexOf(t, EQUALS) == |t|
  {
    LeadExactly(t, |t|);
    IndexOfExactly(t, EQUALS, |t|);
  }

  lemma BlankIsOther(line: seq<byte>)
    requires Lead(Text(line)) == |Text(line)|
    ensures Parse(line) == Other
  {
    BlankText(Text(line));
    hide Text, Trim, IndexOf;
  }

  // A comment line is neither a section nor a pair, so skipping it first changes nothing.
  lemma CommentIsOther(line: seq<byte>)
    requires Slashes(line, Lead(line))
    ensures Parse(line) == Other
  {
    var num, t := Lead(line), Chop(line);
    LeadText(line);
    hide Chop, CommentAt, Lead, Text;
    if |t| <= num { Chopped(line, num); }
    if |t| <= num + 1 { Chopped(line, num + 1); }
    assert Slashes(line[num..|t|], 0);
    CommentAtExactly(line[num..|t|], 0);
    BlankIsOther(line);
  }

  // The end of is_section, from the opening bracket on.
  method BracketName(s: cstring, n: nat, sec: array<byte>, secSize: nat) returns (rc: bool)
    requires n <= |s| && s != [] && s[0] == OPEN
    requires secSize < sec.Length && NUL in sec[..] && CString(sec[..]) == []
    modifies sec
    ensures var name := Bracketed(TrimRight(s[..n]), secSize);
            (rc <==> name.Some?) && NUL in sec[..] && CString(sec[..]) == name.GetOr([])
  {
    hide Core, CString, Holds;
    var end := RFindNonBlank(s, n);
    ghost var r := TrimRight(s[..n]);
    assert end.Some? ==> r == s[..end.value + 1];
    if end.None? || s[end.value] != CLOSE {
      return false;
    }
    if end.value + 1 <= 2 {
      return false;
    }
    var len := end.value - 1;
    if len > secSize { len := secSize; }
    CopyString(sec, s[1..1 + len]);
    Unbracketed(s, r, len, secSize);
    rc := true;
  }

  lemma Unbracketed(s: seq<byte>, r: seq<byte>, len: nat, max: nat)
    requires 2 < |r| <= |s| && r == s[..|r|] && len == Min(|r| - 2, max)
    requires r[0] == OPEN && r[|r| - 1] == CLOSE
    ensures Bracketed(r, max) == Some(s[1..1 + len])
  {
    assert r[1..|r| - 1] == s[1..|r| - 1];
    assert s[1..|r| - 1][..len] == s[1..1 + len];
  }

  lemma SectionCases(line: seq<byte>, max: nat)
    ensures var num, len, n := Lead(line), |Chop(line)|, |Text(line)|;
            && n <= len <= |line|
            && if num >= len || line[num] != OPEN then SectionOf(line, max) == None
               else num <= n && SectionOf(line, max) == Bracketed(TrimRight(line[num..n]), max)
                    && CommentAt(line[num..len]) == n - num
  {
    var num, n := Lead(line), |Text(line)|;
    LeadText(line);
    hide Text, Chop, CommentAt, Lead, Core;
    if num >= n {
      BlankText(Text(line));
    } else {
      assert TrimLeft(Text(line)) == line[num..n];
    }
    if num < |Chop(line)| && n <= num {
      assert TrimRight(line[num..n]) == [];
    }
  }

  method IsSection(buffer: cstring, sec: array<byte>, secSize: nat) returns (rc: bool)
    requires secSize < sec.Length
    modifies sec
    ensures rc <==> SectionOf(buffer, secSize).Some?
    ensures NUL in sec[..] && CString(sec[..]) == SectionOf(buffer, secSize).GetOr([])
  {
    hide CString, Core, Text, Lead, CommentAt, Bracketed, Chop, SectionOf, FindComment;
    CopyString(sec, []);
    SectionCases(buffer, secSize);
    if buffer == [] {
      return false;
    }
    var len := ChopLength(buffer);
    if len == 0 { Chopped(buffer, 0); }
    var beg := FindNonBlank(buffer, len);
    if beg.None? || buffer[beg.value] != OPEN {
      return false;
    }
    var s := buffer[beg.value..];
    var n := len - beg.value;
    var comment := FindComment(s, n);
    assert s[..n] == buffer[beg.value..len];
    if comment.Some? { n := comment.value; }
    assert s[..n] == buffer[beg.value..|Text(buffer)|];
    rc := BracketName(s, n, sec, secSize);
  }

  // Why a line is no "key = value" line: split_profile_value's answer.
  function SplitCode(line: seq<byte>, keyMax: nat): (rc: int)
    ensures rc <= 0
  {
    var t := Chop(line);
    var eq := IndexOf(line, EQUALS);
    if line == [] then -1
    else if t != [] && Blanks(t) then -5
    else if eq == |line| then -6
    else if Blanks(line[..eq]) then -1
    else if CommentAt(t) < eq then -3
    else if keyMax == 0 then -4
    else 0
  }

  lemma BlanksBefore(s: seq<byte>, k: nat)
    requires k <= |s|
    ensures Blanks(s[..k]) <==> k <= Lead(s)
  {
    LeadExactly(s, Lead(s));
    hide Lead;
    assert Lead(s) < k ==> s[..k][Lead(s)] == s[Lead(s)];
  }

  // Cutting the text at the comment moves the equals sign only out of it.
  lemma EqualsInText(line: seq<byte>)
    ensures var n, eq := |Text(line)|, IndexOf(line, EQUALS);
            && n <= |line| && Text(line) == line[..n] && n == CommentAt(Chop(line))
            && IndexOf(Text(line), EQUALS) == Min(eq, n)
            && (eq == n ==> eq == |line|)
  {
    var t, n, eq := Chop(line), |Text(line)|, IndexOf(line, EQUALS);
    assert Text(line) == line[..n];
    CommentAtExactly(t, n);
    hide Chop, CommentAt, IndexOf, Text;
    IndexOfExactly(line, EQUALS, eq);
    if eq == n < |line| && n == |t| { Chopped(line, eq); }
    IndexOfExactly(line[..n], EQUALS, Min(eq, n));
  }

  lemma EqualsFrom(line: seq<byte>)
    ensures var num, len, eq := Lead(line), |Chop(line)|, IndexOf(line, EQUALS);
            && num <= eq && num + IndexOf(line[num..], EQUALS) == eq
            && (eq < |line| ==> eq < len)
            && (len == 0 && line != [] ==> num == 0)
  {
    var num, t, eq := Lead(line), Chop(line), IndexOf(line, EQUALS);
    LeadExactly(line, num);
    IndexOfExactly(line, EQUALS, eq);
    hide Chop, Lead, IndexOf;
    if |t| == 0 < |line| { Chopped(line, 0); }
    if |t| <= eq < |line| { Chopped(line, eq); }
    IndexOfExactly(line[num..], EQUALS, eq - num);
  }

  // The order in which the tests are made.
  lemma SplitCases(line: seq<byte>, keyMax: nat)
    ensures var num, len, eq := Lead(line), |Chop(line)|, IndexOf(line, EQUALS);
            && (eq == CommentAt(Chop(line)) ==> eq == |line|)
            && SplitCode(line, keyMax)
            == if line == [] then -1 else if 0 < len <= num then -5
               else if eq == |line| then -6 else if eq == num then -1
               else if CommentAt(Chop(line)) < eq then -3 else if keyMax == 0 then -4 else 0
  {
    BlanksBefore(line, IndexOf(line, EQUALS));
    BlanksBefore(line, |Chop(line)|);
    EqualsFrom(line);
    EqualsInText(line);
    hide Chop, CommentAt, Lead, IndexOf, Blanks;
  }

  lemma KeyLeft(s: seq<byte>, max: nat)
    requires s == [] || !IsBlank(s[0])
    ensures Trim(First(max, s)) == [] <==> max == 0 || s == []
  {
    var t := First(max, s);
    hide Core;
    CoreExactly(t, Core(t));
    assert t != [] ==> t[0] == s[0];
  }

  // The pair is what lies on the two sides of the first equals sign.
  lemma PairCases(line: seq<byte>, keyMax: nat, valueMax: nat)
    ensures var num, eq, n := Lead(line), IndexOf(line, EQUALS), |Text(line)|;
            && n == CommentAt(Chop(line)) <= |line|
            && PairOf(line, keyMax, valueMax)
            == if num < eq < n && keyMax > 0
               then Some((Trim(First(keyMax, line[num..eq])), Trim(First(valueMax, line[eq + 1..n]))))
               else None
    ensures var num, eq, n := Lead(line), IndexOf(line, EQUALS), |Text(line)|;
            num < eq < n ==> (Trim(First(keyMax, line[num..eq])) == [] <==> keyMax == 0)
  {
    var num, n, eq := Lead(line), |Text(line)|, IndexOf(line, EQUALS);
    EqualsInText(line);
    hide Chop, CommentAt, Lead, IndexOf, Text, Trim, First;
    if eq < n {
      LeadOfPrefix(line, eq);
      LeadExactly(line, num);
      assert line[..n][..eq] == line[..eq] && line[..n][eq + 1..] == line[eq + 1..n];
      assert TrimLeft(line[..eq]) == line[Min(num, eq)..eq];
      KeyLeft(line[Min(num, eq)..eq], keyMax);
    }
  }

  lemma SplitFinds(line: seq<byte>, keyMax: nat, valueMax: nat)
    ensures SplitCode(line, keyMax) == 0 <==> PairOf(line, keyMax, valueMax).Some?
  {
    EqualsFrom(line);
    SplitCases(line, keyMax);
    PairCases(line, keyMax, valueMax);
    hide Chop, CommentAt, Lead, IndexOf, Text, Trim, First, PairOf, SplitCode;
  }

  // One line for each answer, in the order of the tests: nothing, blanks only, no equals sign, no
  // key, a comment before the equals sign, no room for the key.
  lemma SplitExamples(keyMax: nat)
    ensures SplitCode([], keyMax) == -1
    ensures SplitCode([32, 9], keyMax) == -5
    ensures SplitCode([107], keyMax) == -6
    ensures SplitCode([32, 61, 118], keyMax) == -1
    ensures SplitCode([107, 47, 47, 61], keyMax) == -3
    ensures SplitCode([107, 61, 118], 0) == -4
  {
    IndexOfExactly([107], EQUALS, 1);
    IndexOfExactly([32, 61, 118], EQUALS, 1);
    IndexOfExactly([107, 47, 47, 61], EQUALS, 3);
    IndexOfExactly([107, 61, 118], EQUALS, 1);
    CommentAtExactly([107, 47, 47, 61], 1);
    CommentAtExactly([107, 61, 118], 3);
    hide IndexOf, CommentAt;
    assert [32, 9][1] == 9 && [107][0] == 107 && [32, 61, 118][1] == 61;
    assert [32, 61, 118][..1] == [32] && [107, 47, 47, 61][..3] == [107, 47, 47] && [107, 61, 118][..1] == [107];
  }

  // A stretch of the line copied out, cut to the size of the buffer, and trimmed.
  method CopyTrimmed(dst: array<byte>, src: cstring, from: nat, to: nat, max: nat)
    requires from <= to <= |src| && max < dst.Length
    modifies dst
    ensures NUL in dst[..] && CString(dst[..]) == Trim(First(max, src[from..to]))
  {
    hide CString, Trim;
    var n := to - from;
    if n > max { n := max; }
    assert First(max, src[from..to]) == src[from..from + n];
    CopyString(dst, src[from..from + n]);
    TrimBlank(dst);
  }

  method SplitProfileValue(buffer: cstring, key: array<byte>, keySize: nat, value: array<byte>, valueSize: nat)
    returns (rc: int)
    requires key != value && keySize < key.Length && valueSize < value.Length
    modifies key, value
    ensures rc == SplitCode(buffer, keySize)
    ensures NUL in key[..] && NUL in value[..]
    ensures var kv := PairOf(buffer, keySize, valueSize);
            && CString(key[..]) == (if kv.Some? then kv.value.0 else [])
            && CString(value[..]) == (if kv.Some? then kv.value.1 else [])
  {
    hide CString, Lead, SplitCode, Text, Chop, CommentAt, PairOf, FindComment, Trim, IndexOf, First;
    CopyString(key, []);
    CopyString(value, []);
    EqualsFrom(buffer);
    SplitCases(buffer, keySize);
    PairCases(buffer, keySize, valueSize);
    SplitFinds(buffer, keySize, valueSize);
    if buffer == [] {
      return -1;
    }
    var len := ChopLength(buffer);
    var at := FindNonBlank(buffer, len);
    if at.None? || at.value > len {
      return -5;
    }
    var num := at.value;
    var eq := num + IndexOf(buffer[num..], EQUALS);
    if eq == |buffer| || eq > len {
      return -6;
    }
    var comment := FindComment(buffer, len);
    assert buffer[..len] == Chop(buffer);
    if eq == num {
      return -1;
    }
    if comment.Some? && comment.value <= eq {
      return -3;
    }
    CopyTrimmed(key, buffer, num, eq, keySize);
    if CString(key[..]) == [] {
      return -4;
    }
    CopyTrimmed(value, buffer, eq + 1, comment.GetOr(len), valueSize);
    rc := 0;
  }
}
