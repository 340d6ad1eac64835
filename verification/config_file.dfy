// ConfigFile: reading the options of a file one after another, and looking one up.
module ConfigFiles {
  import opened CTypes
  import opened CStrings
  import opened ConfigLines

  const LINE_SIZE: int := 2048  // MAX_INI_LINE_LEN

  const INI_TYPE_NONE: int := 0
  const INI_TYPE_SECTION: int := 1
  const INI_TYPE_KEY_VALUE: int := 5

  // How much of `s` one fgets takes: up to a line feed, and no more than `max` bytes.
  function LineLength(s: seq<byte>, max: nat): (n: nat)
    ensures n <= Min(|s|, max) && (s != [] && max > 0 ==> n > 0)
  {
    if s == [] || max == 0 then 0
    else if s[0] == LF then 1
    else LineLength(s[1..], max - 1) + 1
  }

  // The lines of a file as the C program sees them.
  function Options(s: seq<byte>): seq<Line> {
    if s == [] then []
    else
      var n := LineLength(s, LINE_SIZE - 1);
      [Parse(CString(s[..n]))] + Options(s[n..])
  }

  // The first option among the lines, with the lines behind it.
  function Next(lines: seq<Line>): (r: (Line, seq<Line>))
    ensures r.0.Other? ==> r.1 == []
  {
    if lines == [] then (Other, [])
    else if lines[0].Other? then Next(lines[1..])
    else (lines[0], lines[1..])
  }

  lemma NextOf(line: Line, rest: seq<Line>)
    ensures Next([line] + rest) == if line.Other? then Next(rest) else (line, rest)
  {
    assert ([line] + rest)[1..] == rest;
  }

  lemma NextOfNone()
    ensures Next([]) == (Other, [])
  {}

  // The search: `inside` once a section of the right name has been seen.
  function Search(lines: seq<Line>, inside: bool, sec: seq<byte>, key: seq<byte>): Option<seq<byte>> {
    if lines == [] then None
    else
      match lines[0]
      case Other => Search(lines[1..], inside, sec, key)
      case Section(name) => if inside then None else Search(lines[1..], name == sec, sec, key)
      case Pair(k, value) =>
        if inside && k == key then Some(value) else Search(lines[1..], inside, sec, key)
  }

  // Line k is the first to set `key` after line h, the first header of section `sec`, and no other
  // header lies between them.
  ghost predicate Hit(lines: seq<Line>, sec: seq<byte>, key: seq<byte>, h: int, k: int) {
    && 0 <= h < k < |lines|
    && lines[h] == Section(sec) && (forall i :: 0 <= i < h ==> lines[i] != Section(sec))
    && lines[k].Pair? && lines[k].key == key
    && forall i :: h < i < k ==> !lines[i].Section? && !(lines[i].Pair? && lines[i].key == key)
  }

  // The same once line h has been passed.
  ghost predicate HitInside(lines: seq<Line>, key: seq<byte>, k: int) {
    && 0 <= k < |lines| && lines[k].Pair? && lines[k].key == key
    && forall i :: 0 <= i < k ==> !lines[i].Section? && !(lines[i].Pair? && lines[i].key == key)
  }

  lemma {:induction false} SearchInside(lines: seq<Line>, sec: seq<byte>, key: seq<byte>) returns (k: int)
    ensures var r := Search(lines, true, sec, key);
            if r.Some? then HitInside(lines, key, k) && r.value == lines[k].value
            else forall j :: !HitInside(lines, key, j)
  {
    k := 0;
    if lines != [] && !lines[0].Section? && !(lines[0].Pair? && lines[0].key == key) {
      k := SearchInside(lines[1..], sec, key);
      k := k + 1;
      forall j | HitInside(lines, key, j) ensures HitInside(lines[1..], key, j - 1) {}
    }
  }

  // The search answers the value of the first matching key inside the first section of that name
  // and before the next header; it answers nothing exactly when there is no such line.
  lemma {:induction false} SearchExactly(lines: seq<Line>, sec: seq<byte>, key: seq<byte>) returns (h: int, k: int)
    ensures var r := Search(lines, false, sec, key);
            if r.Some? then Hit(lines, sec, key, h, k) && r.value == lines[k].value
            else forall i, j :: !Hit(lines, sec, key, i, j)
  {
    h, k := 0, 0;
    if lines == [] {
    } else if lines[0] == Section(sec) {
      k := SearchInside(lines[1..], sec, key);
      k := k + 1;
      forall i, j | Hit(lines, sec, key, i, j) ensures HitInside(lines[1..], key, j - 1) {
        assert i == 0;
      }
    } else {
      h, k := SearchExactly(lines[1..], sec, key);
      h, k := h + 1, k + 1;
      forall i, j | Hit(lines, sec, key, i, j) ensures Hit(lines[1..], sec, key, i - 1, j - 1) {}
    }
  }

  // One option of the search.
  lemma SearchStep(line: Line, rest: seq<Line>, inside: bool, sec: seq<byte>, key: seq<byte>)
    ensures Search([line] + rest, inside, sec, key)
         == if line.Section? then if inside then None else Search(rest, line.name == sec, sec, key)
            else if line.Pair? && inside && line.key == key then Some(line.value)
            else Search(rest, inside, sec, key)
  {
    assert ([line] + rest)[1..] == rest;
  }

  lemma SearchNothing(inside: bool, sec: seq<byte>, key: seq<byte>)
    ensures Options([]) == [] && Search([], inside, sec, key) == None
  {}

  // No two lines can both be the one found.
  lemma HitUnique(lines: seq<Line>, sec: seq<byte>, key: seq<byte>, h: int, k: int, i: int, j: int)
    requires Hit(lines, sec, key, h, k) && Hit(lines, sec, key, i, j)
    ensures h == i && k == j
  {
    assert !(h < i) && !(i < h);
  }

  lemma {:induction false} SearchNext(lines: seq<Line>, inside: bool, sec: seq<byte>, key: seq<byte>)
    ensures var (line, rest) := Next(lines);
            Search(lines, inside, sec, key) == Search([line] + rest, inside, sec, key)
  {
    if lines == [] {
      assert [Other][1..] == [];
    } else if lines[0].Other? {
      SearchNext(lines[1..], inside, sec, key);
    } else {
      assert [lines[0]] + lines[1..] == lines;
    }
  }

  // Section and key names read from a file are never empty.
  ghost predicate Named(lines: seq<Line>) {
    && (forall i :: 0 <= i < |lines| && lines[i].Section? ==> lines[i].name != [])
    && (forall i :: 0 <= i < |lines| && lines[i].Pair? ==> lines[i].key != [])
  }

  lemma ParseNamed(line: seq<byte>)
    ensures Named([]) && Named([Parse(line)])
  {
    hide Text, Trim, IndexOf, TrimLeft;
  }

  lemma NamedCons(line: Line, lines: seq<Line>)
    requires Named([line]) && Named(lines)
    ensures Named([line] + lines)
  {}

  lemma {:induction false} OptionsNamed(s: seq<byte>)
    ensures Named(Options(s))
  {
    hide Parse, LineLength, CString, Named;
    if s == [] {
      ParseNamed([]);
    } else {
      var n := LineLength(s, LINE_SIZE - 1);
      ParseNamed(CString(s[..n]));
      OptionsNamed(s[n..]);
      NamedCons(Parse(CString(s[..n])), Options(s[n..]));
    }
  }

  // So asking for an empty name finds nothing.
  lemma EmptyNotFound(s: seq<byte>, sec: seq<byte>, key: seq<byte>)
    requires sec == [] || key == []
    ensures Search(Options(s), false, sec, key) == None
  {
    OptionsNamed(s);
    var h, k := SearchExactly(Options(s), sec, key);
    hide Options, Search;
  }

  // A buffer of `size` bytes filled with as much of a string as fits and zeros behind it.
  function Padded(src: seq<byte>, size: nat): (buf: seq<byte>)
    requires size > 0
    ensures |buf| == size
  {
    var t := First(size - 1, src);
    t + Zeros(size - |t|)
  }

  lemma PaddedExactly(src: seq<byte>, size: nat)
    requires size > 0
    ensures var n := Min(|src|, size - 1); var buf := Padded(src, size);
            buf[..n] == src[..n] && forall k :: n <= k < size ==> buf[k] == 0
  {}

  // strncpy over a whole buffer with the last byte forced to zero.
  method CopyPadded(dst: array<byte>, src: cstring)
    requires dst.Length > 0
    modifies dst
    ensures dst[..] == Padded(src, dst.Length)
    ensures NUL in dst[..] && CString(dst[..]) == First(dst.Length - 1, src)
  {
    hide CString;
    forall k | 0 <= k < dst.Length {
      dst[k] := if k < |src| then src[k] else NUL;
    }
    dst[dst.Length - 1] := NUL;
    HoldsExactly(dst[..], First(dst.Length - 1, src));
  }

  function KindOf(line: Line): int {
    match line
    case Other => INI_TYPE_NONE
    case Section(_) => INI_TYPE_SECTION
    case Pair(_, _) => INI_TYPE_KEY_VALUE
  }

  // What the three output buffers hold for an option.
  ghost predicate Shows(line: Line, sec: seq<byte>, key: seq<byte>, value: seq<byte>) {
    && NUL in sec && NUL in key && NUL in value
    && CString(sec) == (if line.Section? then line.name else [])
    && CString(key) == (if line.Pair? then line.key else [])
    && CString(value) == (if line.Pair? then line.value else [])
  }

  class ConfigFile {
    var stream: Option<seq<byte>>  // the open file, if any
    var pos: nat

    ghost predicate Valid()
      reads this
    {
      pos <= |stream.GetOr([])|
    }

    ghost function Rest(): seq<byte>
      requires Valid()
      reads this
    {
      stream.GetOr([])[pos..]
    }

    // load_cfg_file: `content` is what fopen made available.
    constructor (content: Option<seq<byte>>)
      ensures Valid() && stream == content && Rest() == content.GetOr([])
    {
      stream, pos := content, 0;
    }

    // fgets: the line is zero-terminated in the buffer; false at the end of the file.
    method ReadLine(buff: array<byte>) returns (ok: bool)
      requires Valid() && stream.Some? && buff.Length == LINE_SIZE
      modifies this`pos, buff
      ensures Valid() && stream == old(stream)
      ensures ok <==> old(Rest()) != []
      ensures !ok ==> pos == old(pos)
      ensures ok ==> pos == old(pos) + LineLength(old(Rest()), LINE_SIZE - 1) && NUL in buff[..]
      ensures Options(old(Rest())) == if ok then [Parse(CString(buff[..]))] + Options(Rest()) else []
    {
      hide Parse, CString, LineLength;
      var file := stream.value;
      if pos == |file| {
        return false;
      }
      var n := CopyLine(file, pos, buff);
      pos := pos + n;
      assert Rest() == old(Rest())[n..];
      ok := true;
    }

    // get_next_option.  A comment line is skipped at once, any other line once it is found to be
    // neither a section nor a pair.
    method GetNextOption(sec: array<byte>, key: array<byte>, value: array<byte>) returns (kind: int)
      requires Valid() && sec != key && key != value && sec != value
      requires sec.Length == key.Length == NAME_MAX + 1 && value.Length == VALUE_MAX + 1
      modifies this`pos, sec, key, value
      ensures Valid() && stream == old(stream)
      ensures stream.None? ==> kind == -1 && pos == old(pos)
      ensures var (found, rest) := Next(Options(old(Rest())));
              stream.Some? ==> kind == (if found.Section? then 1 else if found.Pair? then 5 else 0)
                               && Options(Rest()) == rest
      ensures pos >= old(pos) && (kind > 0 ==> pos > old(pos))
      ensures stream.Some? ==> Shows(Next(Options(old(Rest()))).0, sec[..], key[..], value[..])
    {
      hide CString, LineLength, Parse, Options, Next;
      NextOfNone();
      CopyString(sec, []);
      CopyString(key, []);
      CopyString(value, []);
      if stream.None? {
        return -1;
      }
      var buffLine := new byte[LINE_SIZE](_ => 0);
      ghost var found := Next(Options(old(Rest())));
      assert Rest() == old(Rest());
      var more := ReadLine(buffLine);
      while more
        invariant Valid() && stream == old(stream) && pos >= old(pos)
        invariant more ==> pos > old(pos) && NUL in buffLine[..]
        invariant Empty(sec[..]) && Empty(key[..]) && Empty(value[..])
        invariant found == if more then Next([Parse(CString(buffLine[..]))] + Options(Rest())) else (Other, [])
        invariant !more ==> Options(Rest()) == []
        decreases more, |stream.GetOr([])| - pos
      {
        NextOf(Parse(CString(buffLine[..])), Options(Rest()));
        kind := TakeLine(CString(buffLine[..]), sec, key, value);
        if kind > 0 {
          return;
        }
        more := ReadLine(buffLine);
      }
      kind := INI_TYPE_NONE;
    }

    // read_profile_string; an empty name stands for a null pointer.
    method ReadProfileString(sec: cstring, key: cstring, value: array<byte>) returns (found: bool)
      requires Valid() && value.Length > 0
      modifies this`pos, value
      ensures Valid() && stream == old(stream)
      ensures var r := Search(Options(stream.GetOr([])), false, sec, key);
              && (found <==> r.Some?)
              && (found ==> value[..] == Padded(r.value, value.Length))
              && (found ==> var n := Min(|r.value|, value.Length - 1);
                            value[..n] == r.value[..n] && forall k :: n <= k < value.Length ==> value[k] == 0)
      ensures !found ==> value[..] == old(value[..])[0 := NUL]
    {
      hide CString, Options, Search, Next, Padded;
      ghost var all := Options(stream.GetOr([]));
      value[0] := NUL;
      if sec == [] || key == [] {
        EmptyNotFound(stream.GetOr([]), sec, key);
        return false;
      }
      if stream.None? {
        SearchNothing(false, sec, key);
        return false;
      }
      pos := 0;
      var secTmp := new byte[NAME_MAX + 1];
      var keyTmp := new byte[NAME_MAX + 1];
      var valueTmp := new byte[VALUE_MAX + 1];
      var inside := false;
      SearchNext(Options(Rest()), inside, sec, key);
      ghost var next := Next(Options(Rest()));
      var kind := GetNextOption(secTmp, keyTmp, valueTmp);
      while kind > 0
        invariant Valid() && stream == old(stream) && value[..] == old(value[..])[0 := NUL]
        invariant kind == KindOf(next.0) && Options(Rest()) == next.1 && (next.0.Other? ==> next.1 == [])
        invariant Shows(next.0, secTmp[..], keyTmp[..], valueTmp[..])
        invariant Search(all, false, sec, key) == Search([next.0] + next.1, inside, sec, key)
        decreases |stream.GetOr([])| - pos, kind
      {
        SearchStep(next.0, next.1, inside, sec, key);
        if kind == INI_TYPE_SECTION {
          if inside {
            return false;
          }
          inside := CString(secTmp[..]) == sec;
        } else if inside && CString(keyTmp[..]) == key {
          CopyPadded(value, CString(valueTmp[..]));
          PaddedExactly(CString(valueTmp[..]), value.Length);
          assert forall k :: 0 <= k < value.Length ==> value[k] == value[..][k];
          return true;
        }
        SearchNext(Options(Rest()), inside, sec, key);
        next := Next(Options(Rest()));
        kind := GetNextOption(secTmp, keyTmp, valueTmp);
      }
      SearchStep(next.0, next.1, inside, sec, key);
      SearchNothing(inside, sec, key);
      found := false;
    }
  }

  predicate Empty(buf: seq<byte>) { NUL in buf && CString(buf) == [] }

  lemma OptionsFit(line: seq<byte>)
    ensures var s := SectionOf(line, NAME_MAX); s.Some? ==> First(NAME_MAX, s.value) == s.value
    ensures var kv := PairOf(line, NAME_MAX, VALUE_MAX);
            kv.Some? ==> First(NAME_MAX, kv.value.0) == kv.value.0 && First(VALUE_MAX, kv.value.1) == kv.value.1
  {
    hide Text, Lead, Core, IndexOf;
  }

  // The body of get_next_option's loop: one line, put into the empty output buffers.
  method TakeLine(line: cstring, sec: array<byte>, key: array<byte>, value: array<byte>) returns (kind: int)
    requires sec != key && key != value && sec != value
    requires sec.Length == key.Length == NAME_MAX + 1 && value.Length == VALUE_MAX + 1
    requires Empty(sec[..]) && Empty(key[..]) && Empty(value[..])
    modifies sec, key, value
    ensures kind == KindOf(Parse(line)) && Shows(Parse(line), sec[..], key[..], value[..])
    ensures kind == INI_TYPE_NONE ==> Empty(sec[..]) && Empty(key[..]) && Empty(value[..])
  {
    hide CString, Lead, SplitCode, PairOf, SectionOf;
    OptionsFit(line);
    var comment := IsComment(line);
    if comment {
      CommentIsOther(line);
      return INI_TYPE_NONE;
    }
    var sectionName := new byte[NAME_MAX + 1](_ => 0);
    var isSection := IsSection(line, sectionName, NAME_MAX);
    if isSection {
      CopyPadded(sec, CString(sectionName[..]));
      return INI_TYPE_SECTION;
    }
    var keyName := new byte[NAME_MAX + 1](_ => 0);
    var optValue := new byte[VALUE_MAX + 1](_ => 0);
    var rc := SplitProfileValue(line, keyName, NAME_MAX, optValue, VALUE_MAX);
    SplitFinds(line, NAME_MAX, VALUE_MAX);
    if rc < 0 {
      return INI_TYPE_NONE;
    }
    CopyPadded(key, CString(keyName[..]));
    CopyPadded(value, CString(optValue[..]));
    kind := INI_TYPE_KEY_VALUE;
  }

  // The bytes of one line and a zero behind them.
  method CopyLine(file: seq<byte>, pos: nat, buff: array<byte>) returns (n: nat)
    requires pos <= |file| && buff.Length > 1
    modifies buff
    ensures n == LineLength(file[pos..], buff.Length - 1)
    ensures NUL in buff[..] && CString(buff[..]) == CString(file[pos..][..n])
  {
    var max := buff.Length - 1;
    n := 0;
    while n < max && pos + n < |file| && (n == 0 || buff[n - 1] != LF)
      invariant n <= Min(max, |file| - pos)
      invariant forall k :: 0 <= k < n ==> buff[k] == file[pos + k]
      invariant forall k :: 0 <= k < n - 1 ==> buff[k] != LF
    {
      buff[n] := file[pos + n];
      n := n + 1;
    }
    buff[n] := NUL;
    hide LineLength, CString;
    ghost var rest := file[pos..];
    assert forall k :: 0 <= k < n ==> rest[k] == buff[k];
    LineLengthExactly(file[pos..], max, n);
    SameUpToNul(buff[..], file[pos..][..n]);
  }

  ghost predicate LineEnds(s: seq<byte>, max: nat, n: nat) {
    && n <= Min(max, |s|) && (forall k :: 0 <= k < n - 1 ==> s[k] != LF)
    && (n == Min(max, |s|) || (n > 0 && s[n - 1] == LF))
  }

  lemma {:induction false} LineLengthExactly(s: seq<byte>, max: nat, n: nat)
    ensures n == LineLength(s, max) <==> LineEnds(s, max, n)
  {
    if s != [] && max > 0 && s[0] != LF && n > 0 {
      LineLengthExactly(s[1..], max - 1, n - 1);
    }
  }

  lemma {:induction false} SameUpToNul(buf: seq<byte>, s: seq<byte>)
    requires |s| < |buf| && s == buf[..|s|] && buf[|s|] == NUL
    ensures NUL in buf && CString(buf) == CString(s)
  {
    if s != [] && s[0] != NUL {
      SameUpToNul(buf[1..], s[1..]);
    }
  }
}
