// Printing configuration lines and reading them back.
module ConfigPrint {
  import opened CTypes
  import opened CStrings
  import opened ConfigLines
  import opened ConfigFiles

  // Blanks around the parts of a line, a comment and a line ending.
  datatype Layout = Layout(b0: seq<byte>, b1: seq<byte>, b2: seq<byte>, b3: seq<byte>,
                           comment: seq<byte>, end: seq<byte>)

  predicate NoSlashes(s: seq<byte>) { forall i :: 0 <= i < |s| ==> !Slashes(s, i) }

  predicate NoBreaks(s: seq<byte>) { forall i :: 0 <= i < |s| ==> s[i] != LF && s[i] != CR }

  predicate LineEnd(end: seq<byte>) { end == [] || end == [LF] || end == [CR, LF] || end == [CR] }

  ghost predicate Proper(l: Layout) {
    && Blanks(l.b0) && Blanks(l.b1) && Blanks(l.b2) && Blanks(l.b3)
    && (l.comment == [] || Slashes(l.comment, 0)) && NoBreaks(l.comment)
    && LineEnd(l.end)
  }

  ghost predicate ProperKey(k: seq<byte>) {
    k != [] && Trimmed(k) && NoSlashes(k) && NoBreaks(k) && EQUALS !in k
  }

  ghost predicate ProperValue(v: seq<byte>) { Trimmed(v) && NoSlashes(v) && NoBreaks(v) }

  predicate EndsWith(s: seq<byte>, ch: byte) { s != [] && s[|s| - 1] == ch }

  function PairBody(l: Layout, k: seq<byte>, v: seq<byte>): seq<byte> {
    l.b0 + k + l.b1 + [EQUALS] + (l.b2 + v + l.b3)
  }

  function PrintPair(l: Layout, k: seq<byte>, v: seq<byte>): seq<byte> {
    PairBody(l, k, v) + l.comment + l.end
  }

  function SectionBody(l: Layout, name: seq<byte>): seq<byte> {
    l.b0 + ([OPEN] + name + [CLOSE]) + l.b1
  }

  function PrintSection(l: Layout, name: seq<byte>): seq<byte> {
    SectionBody(l, name) + l.comment + l.end
  }

  lemma ChopEnd(s: seq<byte>, end: seq<byte>)
    requires NoBreaks(s) && LineEnd(end)
    ensures Chop(s + end) == s
  {
    var t, n := s + end, |s|;
    assert t[..n] == s;
    assert n > 0 ==> t[n - 1] == s[n - 1];
    if end == [] {
      assert t == s;
    } else if |end| == 1 {
      assert t[n] == end[0] && |t| == n + 1;
    } else {
      assert t[n] == CR && t[n + 1] == LF && |t| == n + 2;
      assert t[..n + 1][..n] == s && t[..n + 1][n] == CR;
    }
  }

  // A comment is found where it starts, or one byte earlier behind a slash.
  lemma CommentBehind(s: seq<byte>, c: seq<byte>)
    requires NoSlashes(s) && (c == [] || Slashes(c, 0))
    ensures CommentAt(s + c) == if c != [] && EndsWith(s, SLASH) then |s| - 1 else |s|
  {
    var n := if c != [] && EndsWith(s, SLASH) then |s| - 1 else |s|;
    forall i | 0 <= i < n ensures !Slashes(s + c, i) {
      assert !Slashes(s, i);
    }
    assert c != [] ==> (s + c)[|s|] == c[0];
    assert c != [] ==> (s + c)[|s| + 1] == c[1];
    CommentAtExactly(s + c, n);
  }

  lemma NoSlashesJoin(a: seq<byte>, b: seq<byte>)
    requires NoSlashes(a) && NoSlashes(b) && (a == [] || b == [] || a[|a| - 1] != SLASH || b[0] != SLASH)
    ensures NoSlashes(a + b)
  {
    forall i | 0 <= i < |a + b| ensures !Slashes(a + b, i) {
      assert i < |a| ==> !Slashes(a, i);
      assert i >= |a| ==> !Slashes(b, i - |a|);
    }
  }

  lemma PaddedText(b0: seq<byte>, s: seq<byte>, b1: seq<byte>)
    requires Blanks(b0) && Blanks(b1) && NoSlashes(s) && NoBreaks(s)
    ensures NoSlashes(b0 + s + b1) && NoBreaks(b0 + s + b1)
  {
    NoSlashesJoin(b0, s);
    NoSlashesJoin(b0 + s, b1);
  }

  // Blanks in front never count towards what is kept.
  lemma TrimAfterBlanks(b: seq<byte>, s: seq<byte>)
    requires Blanks(b)
    ensures |Trim(b + s)| <= |s|
  {
    hide Lead, Core;
    LeadExactly(s, Lead(s));
    LeadExactly(b + s, |b| + Lead(s));
  }

  // A trimmed string between blanks, cut to `max` bytes, is still found when it fits with the
  // blanks before it, and only then.
  lemma CutAndTrimmed(b0: seq<byte>, s: seq<byte>, b1: seq<byte>, max: nat)
    requires Blanks(b0) && Blanks(b1) && Trimmed(s)
    ensures Trim(First(max, b0 + s + b1)) == s <==> s == [] || |b0| + |s| <= max
  {
    var t := First(max, b0 + s + b1);
    hide Trim;
    if s == [] {
      assert Blanks(b0 + b1) && b0 + s + b1 == b0 + b1;
      assert [] + [] + t == t;
      TrimExactly([], [], t);
    } else if |b0| + |s| <= max {
      var b := b1[..|t| - |b0| - |s|];
      assert t == b0 + s + b;
      TrimExactly(b0, s, b);
    } else {
      var n := Min(max, |b0|);
      assert t == b0[..n] + s[..max - n];
      TrimAfterBlanks(b0[..n], s[..max - n]);
    }
  }

  // The two sides of the equals sign.
  lemma PairSides(b0: seq<byte>, k: seq<byte>, b1: seq<byte>, right: seq<byte>)
    requires Blanks(b0) && Blanks(b1) && ProperKey(k)
    ensures PairIn(b0 + k + b1 + [EQUALS] + right, NAME_MAX, VALUE_MAX)
         == Some((Trim(First(NAME_MAX, k + b1)), Trim(First(VALUE_MAX, right))))
  {
    var left := b0 + k + b1;
    var t := left + [EQUALS] + right;
    hide Trim, Lead, IndexOf, First;
    assert forall i :: 0 <= i < |k| ==> k[i] in k;
    IndexOfExactly(t, EQUALS, |left|);
    assert t[..|left|] == left && t[|left| + 1..] == right;
    LeadExactly(left, |b0|);
    assert left[|b0|..] == k + b1;
    KeyLeft(k + b1, NAME_MAX);
  }

  // When the text of a pair looks like a section header.
  lemma PairAsSection(l: Layout, k: seq<byte>, v: seq<byte>)
    requires Proper(l) && ProperKey(k) && Trimmed(v)
    ensures Bracketed(Trim(PairBody(l, k, v)), NAME_MAX).Some? <==> k[0] == OPEN && EndsWith(v, CLOSE)
  {
    var mid := k + l.b1 + [EQUALS] + if v == [] then [] else l.b2 + v;
    var tail := if v == [] then l.b2 + l.b3 else l.b3;
    hide Trim;
    assert PairBody(l, k, v) == l.b0 + mid + tail;
    assert v != [] ==> mid[|mid| - 1] == v[|v| - 1];
    TrimExactly(l.b0, mid, tail);
  }

  lemma CommentedText(body: seq<byte>, comment: seq<byte>, end: seq<byte>)
    requires NoSlashes(body) && NoBreaks(body) && NoBreaks(comment)
    requires (comment == [] || Slashes(comment, 0)) && LineEnd(end)
    ensures Text(body + comment + end)
         == body[..if comment != [] && EndsWith(body, SLASH) then |body| - 1 else |body|]
  {
    ChopEnd(body + comment, end);
    CommentBehind(body, comment);
    hide Chop, CommentAt, NoSlashes;
    var n := CommentAt(body + comment);
    assert (body + comment)[..n] == body[..n];
  }

  lemma BodyText(l: Layout, k: seq<byte>, v: seq<byte>)
    requires Proper(l) && ProperKey(k) && ProperValue(v)
    ensures var body := PairBody(l, k, v); NoSlashes(body) && NoBreaks(body)
    ensures EndsWith(PairBody(l, k, v), SLASH) <==> l.b3 == [] && EndsWith(v, SLASH)
  {
    var left, right := l.b0 + k + l.b1, l.b2 + v + l.b3;
    PaddedText(l.b0, k, l.b1);
    PaddedText(l.b2, v, l.b3);
    hide NoSlashes;
    EqualsNoSlash();
    NoSlashesJoin(left, [EQUALS]);
    NoSlashesJoin(left + [EQUALS], right);
  }

  lemma EqualsNoSlash()
    ensures NoSlashes([EQUALS])
  {}

  // A value that loses its last byte is not read back.
  lemma SlashLost(l: Layout, k: seq<byte>, v: seq<byte>)
    requires Proper(l) && ProperKey(k) && v != [] && l.b3 == []
    ensures var t := PairBody(l, k, v); PairIn(t[..|t| - 1], NAME_MAX, VALUE_MAX) != Some((k, v))
  {
    hide Trim, PairIn, ProperKey, Blanks, NoBreaks;
    var left, w := l.b0 + k + l.b1, v[..|v| - 1];
    var t := PairBody(l, k, v);
    assert t[..|t| - 1] == left + [EQUALS] + (l.b2 + w);
    PairSides(l.b0, k, l.b1, l.b2 + w);
    CutShorter(l.b2, w, VALUE_MAX);
  }

  lemma CutShorter(b: seq<byte>, s: seq<byte>, max: nat)
    requires Blanks(b)
    ensures |Trim(First(max, b + s))| <= |s|
  {
    hide Trim;
    var n := Min(max, |b|);
    assert First(max, b + s) == b[..n] + First(max - n, s);
    TrimAfterBlanks(b[..n], First(max - n, s));
  }

  lemma ParseOf(line: seq<byte>, t: seq<byte>)
    requires Text(line) == t
    ensures var sec, kv := Bracketed(Trim(t), NAME_MAX), PairIn(t, NAME_MAX, VALUE_MAX);
            Parse(line) == if sec.Some? then Section(sec.value)
                           else if kv.Some? then Pair(kv.value.0, kv.value.1) else Other
  {
    hide Text, Trim, Bracketed, PairIn;
  }

  // The text of a printed pair: without the slash the value ends in, if a comment follows it at once.
  lemma PairText(l: Layout, k: seq<byte>, v: seq<byte>)
    requires Proper(l) && ProperKey(k) && ProperValue(v)
    ensures var t, lost := PairBody(l, k, v), l.comment != [] && l.b3 == [] && EndsWith(v, SLASH);
            Text(PrintPair(l, k, v)) == t[..if lost then |t| - 1 else |t|]
  {
    BodyText(l, k, v);
    hide Text, PairBody, EndsWith, NoSlashes, ProperKey, ProperValue, Blanks;
    CommentedText(PairBody(l, k, v), l.comment, l.end);
  }

  // The two sides read back when they fit.
  lemma PairKept(l: Layout, k: seq<byte>, v: seq<byte>)
    requires Proper(l) && ProperKey(k) && ProperValue(v)
    ensures PairIn(PairBody(l, k, v), NAME_MAX, VALUE_MAX).Some?
    ensures PairIn(PairBody(l, k, v), NAME_MAX, VALUE_MAX) == Some((k, v))
        <==> |k| <= NAME_MAX && (v == [] || |l.b2| + |v| <= VALUE_MAX)
  {
    assert Trimmed(k) && Blanks([]);
    hide Trim, PairIn, First, NoSlashes, NoBreaks, Trimmed, Blanks;
    PairSides(l.b0, k, l.b1, l.b2 + v + l.b3);
    CutAndTrimmed([], k, l.b1, NAME_MAX);
    assert [] + k + l.b1 == k + l.b1;
    CutAndTrimmed(l.b2, v, l.b3, VALUE_MAX);
  }

  // A printed pair reads back as its key and value exactly when both fit, the value does not end
  // in a slash right before a comment, and the line does not look like a section header.
  lemma PairRoundTrip(l: Layout, k: seq<byte>, v: seq<byte>)
    requires Proper(l) && ProperKey(k) && ProperValue(v)
    ensures Parse(PrintPair(l, k, v)) == Pair(k, v)
        <==> && |k| <= 63 && (v == [] || |l.b2| + |v| <= 1023)
             && !(l.comment != [] && l.b3 == [] && EndsWith(v, SLASH))
             && !(k[0] == OPEN && EndsWith(v, CLOSE))
  {
    assert Trimmed(v) && (EndsWith(v, SLASH) ==> v != []);
    hide Text, Trim, Bracketed, PairIn, PairBody, PrintPair, Parse, EndsWith, Proper, ProperKey, ProperValue, Trimmed;
    var body := PairBody(l, k, v);
    PairText(l, k, v);
    ParseOf(PrintPair(l, k, v), Text(PrintPair(l, k, v)));
    if l.comment != [] && l.b3 == [] && EndsWith(v, SLASH) {
      SlashLost(l, k, v);
    } else {
      assert body[..|body|] == body;
      PairKept(l, k, v);
      PairAsSection(l, k, v);
    }
  }

  lemma ShortPair()
    ensures var t := [107, EQUALS, 97];
            && Bracketed(Trim(t), NAME_MAX) == None
            && PairIn(t, NAME_MAX, VALUE_MAX) == Some(([107], [97]))
  {
    var t := [107, EQUALS, 97];
    IndexOfExactly(t, EQUALS, 1);
    hide IndexOf;
    assert Lead(t) == 0 && t[0..] == t && Core(t) == 3 && t[..3] == t;
    assert t[..1] == [107] && t[2..] == [97];
    assert Trim([107]) == [107] && Trim([97]) == [97];
  }

  // "k=a/" with the comment "//c" right behind it is read as "k=a".
  lemma SlashExample()
    ensures var l := Layout([], [], [], [], [SLASH, SLASH, 99], [LF]);
            && Proper(l) && ProperKey([107]) && ProperValue([97, SLASH])
            && Parse(PrintPair(l, [107], [97, SLASH])) == Pair([107], [97])
  {
    var l := Layout([], [], [], [], [SLASH, SLASH, 99], [LF]);
    var line := PrintPair(l, [107], [97, SLASH]);
    assert PairBody(l, [107], [97, SLASH]) == [107, EQUALS, 97, SLASH];
    hide Text, Trim, PairIn, PrintPair, Bracketed;
    PairText(l, [107], [97, SLASH]);
    assert [107, EQUALS, 97, SLASH][..3] == [107, EQUALS, 97];
    ParseOf(line, [107, EQUALS, 97]);
    ShortPair();
  }

  lemma SectionBodyText(l: Layout, name: seq<byte>)
    requires Proper(l) && NoSlashes(name) && NoBreaks(name)
    ensures NoSlashes(SectionBody(l, name)) && NoBreaks(SectionBody(l, name))
    ensures !EndsWith(SectionBody(l, name), SLASH)
    ensures Trim(SectionBody(l, name)) == [OPEN] + name + [CLOSE]
  {
    hide Trim;
    var mid := [OPEN] + name + [CLOSE];
    NoSlashesJoin([OPEN], name);
    NoSlashesJoin([OPEN] + name, [CLOSE]);
    PaddedText(l.b0, mid, l.b1);
    TrimExactly(l.b0, mid, l.b1);
  }

  lemma BracketedName(name: seq<byte>)
    ensures Bracketed([OPEN] + name + [CLOSE], NAME_MAX) == if name == [] then None else Some(First(NAME_MAX, name))
    ensures First(NAME_MAX, name) == name <==> |name| <= NAME_MAX
  {
    var t := [OPEN] + name + [CLOSE];
    assert t[1..|t| - 1] == name;
  }

  // A printed section header reads back as its name exactly when the name is not empty and fits.
  lemma SectionRoundTrip(l: Layout, name: seq<byte>)
    requires Proper(l) && NoSlashes(name) && NoBreaks(name)
    ensures Parse(PrintSection(l, name)) == Section(name) <==> 0 < |name| <= 63
  {
    SectionBodyText(l, name);
    BracketedName(name);
    hide Text, Trim, PairIn, NoSlashes, NoBreaks, Parse, Blanks, Slashes, SectionBody, EndsWith, Bracketed, First;
    var body := SectionBody(l, name);
    CommentedText(body, l.comment, l.end);
    assert body[..|body|] == body;
    ParseOf(PrintSection(l, name), body);
  }

  // A line of a file: it ends in its only line feed, fits the line buffer and holds no zero.
  ghost predicate IsLine(s: seq<byte>) {
    EndsWith(s, LF) && |s| < 2048 && NUL !in s && forall i :: 0 <= i < |s| - 1 ==> s[i] != LF
  }

  // The last line of a file that does not end in a line feed.
  ghost predicate IsLastLine(s: seq<byte>) {
    0 < |s| < 2048 && NUL !in s && LF !in s
  }

  lemma {:induction false} NoNul(s: seq<byte>)
    requires NUL !in s
    ensures CString(s) == s
  {
    if s != [] {
      NoNul(s[1..]);
      assert s == [s[0]] + s[1..];
    }
  }

  lemma FirstLine(s: seq<byte>, rest: seq<byte>)
    requires IsLine(s)
    ensures Options(s + rest) == [Parse(s)] + Options(rest)
  {
    hide Parse, CString, LineLength;
    LineLengthExactly(s + rest, LINE_SIZE - 1, |s|);
    assert (s + rest)[..|s|] == s && (s + rest)[|s|..] == rest;
    NoNul(s);
  }

  // fgets hands over a last line without a line feed as well.
  lemma LastLine(s: seq<byte>)
    requires IsLastLine(s)
    ensures Options(s) == [Parse(s)]
  {
    hide Parse, CString, LineLength;
    assert forall i :: 0 <= i < |s| ==> s[i] in s;
    LineLengthExactly(s, LINE_SIZE - 1, |s|);
    assert s[..|s|] == s && s[|s|..] == [];
    NoNul(s);
    OptionsOfNothing();
  }

  // A longer line is taken in pieces of 2047 bytes.
  lemma LongLine(s: seq<byte>)
    requires |s| >= 2047 && NUL !in s && forall i :: 0 <= i < 2047 ==> s[i] != LF
    ensures Options(s) == [Parse(s[..2047])] + Options(s[2047..])
  {
    hide Parse, CString, LineLength;
    LineLengthExactly(s, LINE_SIZE - 1, 2047);
    assert forall i :: 0 <= i < 2047 ==> s[..2047][i] in s;
    NoNul(s[..2047]);
  }

  // What is written to a file: headers and pairs, each in a layout of its own, and remarks.
  datatype Item =
    | Header(l: Layout, name: seq<byte>)
    | Setting(l: Layout, key: seq<byte>, value: seq<byte>)
    | Remark(text: seq<byte>)

  function Print(item: Item): seq<byte> {
    match item
    case Header(l, name) => PrintSection(l, name)
    case Setting(l, key, value) => PrintPair(l, key, value)
    case Remark(text) => text
  }

  function Meaning(item: Item): Line {
    match item
    case Header(_, name) => Section(name)
    case Setting(_, key, value) => Pair(key, value)
    case Remark(_) => Other
  }

  // What is printed for the item reads back.
  ghost predicate Readable(item: Item) {
    match item
    case Header(l, name) => Proper(l) && NoSlashes(name) && NoBreaks(name) && 0 < |name| <= 63
    case Setting(l, k, v) =>
      && Proper(l) && ProperKey(k) && |k| <= 63
      && ProperValue(v) && (v == [] || |l.b2| + |v| <= 1023)
      && !(l.comment != [] && l.b3 == [] && EndsWith(v, SLASH)) && !(k[0] == OPEN && EndsWith(v, CLOSE))
    case Remark(text) => Parse(text) == Other
  }

  // The item makes one line, and one that reads back.
  ghost predicate Writable(item: Item) {
    IsLine(Print(item)) && Readable(item)
  }

  // The item makes the end of a file without a line feed.
  ghost predicate WritableLast(item: Item) {
    IsLastLine(Print(item)) && Readable(item)
  }

  function PrintAll(items: seq<Item>): seq<byte> {
    if items == [] then [] else Print(items[0]) + PrintAll(items[1..])
  }

  function Meanings(items: seq<Item>): seq<Line> {
    if items == [] then [] else [Meaning(items[0])] + Meanings(items[1..])
  }

  lemma ItemRoundTrip(item: Item)
    requires Readable(item)
    ensures Parse(Print(item)) == Meaning(item)
  {
    hide Parse, PrintSection, PrintPair;
    match item {
      case Header(l, name) => SectionRoundTrip(l, name);
      case Setting(l, k, v) => PairRoundTrip(l, k, v);
      case Remark(_) =>
    }
  }

  // What is written line by line is read back as written, whatever the layout.
  lemma {:induction false} FileReads(items: seq<Item>, rest: seq<byte>)
    requires forall i :: 0 <= i < |items| ==> Writable(items[i])
    ensures Options(PrintAll(items) + rest) == Meanings(items) + Options(rest)
  {
    hide Parse, Print, IsLine, Options, Readable;
    if items == [] {
      assert [] + rest == rest && [] + Options(rest) == Options(rest);
    } else {
      assert Writable(items[0]);
      ItemRoundTrip(items[0]);
      var more := PrintAll(items[1..]);
      assert Print(items[0]) + more + rest == Print(items[0]) + (more + rest);
      FirstLine(Print(items[0]), more + rest);
      FileReads(items[1..], rest);
      assert [Meaning(items[0])] + Meanings(items[1..]) + Options(rest)
          == [Meaning(items[0])] + (Meanings(items[1..]) + Options(rest));
    }
  }

  lemma FileRoundTrip(items: seq<Item>)
    requires forall i :: 0 <= i < |items| ==> Writable(items[i])
    ensures Options(PrintAll(items)) == Meanings(items)
  {
    hide Options, Writable, PrintAll;
    FileReads(items, []);
    OptionsOfNothing();
    assert PrintAll(items) + [] == PrintAll(items) && Meanings(items) + [] == Meanings(items);
  }

  // So is a file whose last line has no line feed.
  lemma LastItemRoundTrip(items: seq<Item>, last: Item)
    requires (forall i :: 0 <= i < |items| ==> Writable(items[i])) && WritableLast(last)
    ensures Options(PrintAll(items) + Print(last)) == Meanings(items) + [Meaning(last)]
  {
    hide Options, Writable, PrintAll, Print, Readable;
    FileReads(items, Print(last));
    LastLine(Print(last));
    ItemRoundTrip(last);
  }

  // A setting on such a last line is found: its section has a header, the first one of that name
  // is followed by no other header, and nothing behind it sets the same key.
  lemma LastSettingFound(items: seq<Item>, last: Item, h: nat)
    requires (forall i :: 0 <= i < |items| ==> Writable(items[i])) && WritableLast(last) && last.Setting?
    requires h < |items| && items[h].Header?
    requires forall i :: 0 <= i < h ==> !(items[i].Header? && items[i].name == items[h].name)
    requires forall i :: h < i < |items| ==> !items[i].Header? && !(items[i].Setting? && items[i].key == last.key)
    ensures Search(Options(PrintAll(items) + Print(last)), false, items[h].name, last.key) == Some(last.value)
  {
    hide Options, Writable, WritableLast, PrintAll, Print, Search;
    LastItemRoundTrip(items, last);
    MeaningsAt(items);
    var lines, sec := Meanings(items) + [Meaning(last)], items[h].name;
    assert lines[|items|] == Pair(last.key, last.value);
    assert forall i :: 0 <= i < |items| ==> lines[i] == Meaning(items[i]);
    assert Hit(lines, sec, last.key, h, |items|);
    var i, k := SearchExactly(lines, sec, last.key);
    if Search(lines, false, sec, last.key).Some? {
      HitUnique(lines, sec, last.key, h, |items|, i, k);
    }
  }

  lemma {:induction false} MeaningsAt(items: seq<Item>)
    ensures |Meanings(items)| == |items|
    ensures forall i :: 0 <= i < |items| ==> Meanings(items)[i] == Meaning(items[i])
  {
    if items != [] {
      MeaningsAt(items[1..]);
    }
  }

  function HeadItem(): Item { Header(Layout([], [], [], [], [], [CR, LF]), [115]) }

  function PairItem(): Item {
    Setting(Layout([TAB], [SPACE], [SPACE], [SPACE], [SLASH, SLASH, SPACE, 99], []), [107], [118])
  }

  lemma HeadPrinted()
    ensures Print(HeadItem()) == [91, 115, 93, 13, 10] && Writable(HeadItem()) && PrintAll([HeadItem()]) == Print(HeadItem())
  {
    var text := Print(HeadItem());
    assert text == [91, 115, 93, 13, 10];
    hide Print;
    assert [HeadItem()][1..] == [] && PrintAll([]) == [] && text + [] == text;
  }

  lemma PairPrinted()
    ensures Print(PairItem()) == [9, 107, 32, 61, 32, 118, 32, 47, 47, 32, 99] && WritableLast(PairItem())
  {}

  // The file "[s]", carriage return, line feed, tab, "k = v // c" has the value "v" under "k".
  lemma FileExample()
    ensures Search(Options([91, 115, 93, 13, 10] + [9, 107, 32, 61, 32, 118, 32, 47, 47, 32, 99]), false, [115], [107])
         == Some([118])
  {
    HeadPrinted();
    PairPrinted();
    hide Print, PrintAll, Options, Search, Writable, WritableLast;
    LastSettingFound([HeadItem()], PairItem(), 0);
  }

  lemma OptionsOfNothing()
    ensures Options([]) == []
  {}
}
