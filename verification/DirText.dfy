/** The text of a directory, name/inum/name/inum/..., as create, mkdir, symlink and unlink print
    it and as readdir reads it back with std::getline and atoi. */
module DirText {
  import opened Bytes

  type Text = seq<Byte>

  const SLASH: Byte := 47
  const ZERO: Byte := 48
  const MINUS: Byte := 45
  const PLUS: Byte := 43
  const INT_LIMIT: nat := 0x8000_0000
  const U64_LIMIT: nat := 0x1_0000_0000_0000_0000

  datatype Dirent = Dirent(name: Text, inum: nat)

  // ---------------------------------------------------------------- printing

  /** operator<< on an unsigned number. */
  function ShowNat(n: nat): (s: Text)
    ensures |s| > 0
  {
    if n < 10 then [ZERO + n] else ShowNat(n / 10) + [ZERO + n % 10]
  }

  function PrintEntry(e: Dirent): Text {
    e.name + [SLASH] + ShowNat(e.inum) + [SLASH]
  }

  function PrintDir(es: seq<Dirent>): Text {
    if es == [] then [] else PrintEntry(es[0]) + PrintDir(es[1..])
  }

  // ---------------------------------------------------------------- parsing

  /** std::istringstream: what is left to read, and whether no flag is set. */
  datatype Stream = Stream(rest: Text, good: bool)

  /** The outcome of std::getline: the token afterwards, the stream, and the stream's truth value. */
  datatype Line = Line(token: Text, ss: Stream, ok: bool)

  function SlashIndex(s: Text): (n: nat)
    ensures n <= |s|
    ensures SLASH !in s[..n]
    ensures n < |s| ==> s[n] == SLASH
  {
    if s == [] || s[0] == SLASH then 0 else
      var n := 1 + SlashIndex(s[1..]);
      assert s[..n] == [s[0]] + s[1..][..n - 1];
      n
  }

  /** getline(ss, token, '/'). A stream that is not good leaves the token as it was; running
      into the end sets eof, and also fail when nothing was read. */
  function GetLine(ss: Stream, token: Text): Line {
    var n := SlashIndex(ss.rest);
    if !ss.good then Line(token, ss, false)
    else if n < |ss.rest| then Line(ss.rest[..n], Stream(ss.rest[n + 1..], true), true)
    else Line(ss.rest, Stream([], false), ss.rest != [])
  }

  predicate IsSpace(b: Byte) {
    b == 32 || 9 <= b <= 13
  }

  predicate IsDigit(b: Byte) {
    ZERO <= b < ZERO + 10
  }

  function ReadDigits(s: Text, acc: nat): nat {
    if s != [] && IsDigit(s[0]) then ReadDigits(s[1..], 10 * acc + (s[0] as int - ZERO as int)) else acc
  }

  /** atoi: blanks, an optional sign, then digits up to the first other character. */
  function AtoI(s: Text): int {
    if s == [] then 0
    else if IsSpace(s[0]) then AtoI(s[1..])
    else if s[0] == MINUS then 0 - (ReadDigits(s[1..], 0) as int)
    else if s[0] == PLUS then ReadDigits(s[1..], 0)
    else ReadDigits(s, 0)
  }

  /** Storing an int in an unsigned long long. */
  function ToInum(v: int): nat {
    v % U64_LIMIT
  }

  /** The entries that the loop of readdir still produces from a stream. */
  function ParseFrom(ss: Stream): seq<Dirent>
    decreases |ss.rest|
  {
    var first := GetLine(ss, []);
    if first.token == [] then [] else
      var second := GetLine(first.ss, first.token);
      var e := Dirent(first.token, ToInum(AtoI(second.token)));
      if second.ok then [e] + ParseFrom(second.ss) else [e]
  }

  function ParseDir(data: Text): seq<Dirent> {
    ParseFrom(Stream(data, true))
  }

  /** Whatever the bytes, there is at most one entry for every three of them, rounded up. */
  lemma {:induction false} ParseBound(ss: Stream)
    ensures |ParseFrom(ss)| <= (|ss.rest| + 2) / 3
    decreases |ss.rest|
  {
    var first := GetLine(ss, []);
    if first.token == [] {
    } else {
      var second := GetLine(first.ss, first.token);
      if second.ok {
        ParseBound(second.ss);
      }
    }
  }

  // ---------------------------------------------------------------- reading back what was printed

  predicate ValidName(name: Text) {
    name != [] && SLASH !in name
  }

  predicate ValidEntry(e: Dirent) {
    ValidName(e.name) && e.inum < INT_LIMIT
  }

  ghost predicate ValidEntries(es: seq<Dirent>) {
    forall k :: 0 <= k < |es| ==> ValidEntry(es[k])
  }

  ghost predicate AllDigits(s: Text) {
    forall k :: 0 <= k < |s| ==> IsDigit(s[k])
  }

  lemma {:induction false} ReadDigitsAppend(a: Text, b: Text, acc: nat)
    requires AllDigits(a)
    ensures ReadDigits(a + b, acc) == ReadDigits(b, ReadDigits(a, acc))
    decreases |a|
  {
    if a == [] {
      assert a + b == b;
    } else {
      assert (a + b)[0] == a[0] && (a + b)[1..] == a[1..] + b;
      ReadDigitsAppend(a[1..], b, 10 * acc + (a[0] as int - ZERO as int));
    }
  }

  lemma {:induction false} ShowNatDigits(n: nat)
    ensures AllDigits(ShowNat(n)) && ReadDigits(ShowNat(n), 0) == n
  {
    if n < 10 {
      assert ReadDigits([ZERO + n], 0) == ReadDigits([ZERO + n][1..], n);
    } else {
      var d: Byte := ZERO + n % 10;
      ShowNatDigits(n / 10);
      ReadDigitsAppend(ShowNat(n / 10), [d], 0);
      assert ReadDigits([d], n / 10) == ReadDigits([d][1..], n);
    }
  }

  lemma AtoIShow(n: nat)
    ensures AtoI(ShowNat(n)) == n && SLASH !in ShowNat(n)
  {
    ShowNatDigits(n);
    assert IsDigit(ShowNat(n)[0]);
  }

  lemma {:induction false} SlashAfter(a: Text, b: Text)
    requires SLASH !in a
    ensures SlashIndex(a + [SLASH] + b) == |a|
  {
    var s := a + [SLASH] + b;
    assert s[|a|] == SLASH;
    assert forall k :: 0 <= k < |a| ==> s[k] == a[k];
  }

  lemma GetLinePrinted(a: Text, b: Text, token: Text)
    requires SLASH !in a
    ensures GetLine(Stream(a + [SLASH] + b, true), token) == Line(a, Stream(b, true), true)
  {
    SlashAfter(a, b);
  }

  lemma ParseOne(name: Text, num: Text, tail: Text)
    requires ValidName(name) && SLASH !in num
    ensures ParseFrom(Stream(name + [SLASH] + (num + [SLASH] + tail), true))
         == [Dirent(name, ToInum(AtoI(num)))] + ParseFrom(Stream(tail, true))
  {
    hide AtoI, GetLine, SlashIndex;
    GetLinePrinted(name, num + [SLASH] + tail, []);
    GetLinePrinted(num, tail, name);
  }

  lemma EntryThenRest(e: Dirent, tail: Text)
    ensures PrintEntry(e) + tail == e.name + [SLASH] + (ShowNat(e.inum) + [SLASH] + tail)
  {
    hide ShowNat;
  }

  lemma ParsePrintedEntry(e: Dirent, tail: Text)
    requires ValidEntry(e)
    ensures ParseDir(PrintEntry(e) + tail) == [e] + ParseDir(tail)
  {
    hide ShowNat, AtoI, ParseFrom, PrintEntry;
    AtoIShow(e.inum);
    EntryThenRest(e, tail);
    ParseOne(e.name, ShowNat(e.inum), tail);
    assert ToInum(AtoI(ShowNat(e.inum))) == e.inum;
  }

  /** Reading a printed directory gives back its entries, in order. */
  lemma {:induction false} ParsePrint(es: seq<Dirent>)
    requires ValidEntries(es)
    ensures ParseDir(PrintDir(es)) == es
    decreases |es|
  {
    if es == [] {
      assert ParseDir([]) == [];
    } else {
      hide ParseDir, PrintEntry, ValidEntry;
      ParsePrint(es[1..]);
      ParsePrintedEntry(es[0], PrintDir(es[1..]));
    }
  }

  lemma {:induction false} ParsedNamesAreValid(ss: Stream)
    ensures forall k :: 0 <= k < |ParseFrom(ss)| ==> ValidName(ParseFrom(ss)[k].name)
    decreases |ss.rest|
  {
    hide AtoI;
    var first := GetLine(ss, []);
    if first.token == [] {
    } else {
      var second := GetLine(first.ss, first.token);
      if second.ok {
        ParsedNamesAreValid(second.ss);
      }
    }
  }

  /** The text tells a directory's entries apart exactly when no name is empty or has a slash. */
  lemma ParsePrintIff(es: seq<Dirent>)
    requires forall k :: 0 <= k < |es| ==> es[k].inum < INT_LIMIT
    ensures ParseDir(PrintDir(es)) == es <==> forall k :: 0 <= k < |es| ==> ValidName(es[k].name)
  {
    if forall k :: 0 <= k < |es| ==> ValidName(es[k].name) {
      ParsePrint(es);
    } else {
      ParsedNamesAreValid(Stream(PrintDir(es), true));
    }
  }

  lemma PrintSingle(e: Dirent)
    ensures PrintDir([e]) == PrintEntry(e)
  {
    hide PrintEntry;
    assert [e][1..] == [];
  }

  /** What is read when the text ends after a name and its slash: number 0. */
  lemma ParseBareName(name: Text)
    requires ValidName(name)
    ensures ParseFrom(Stream(name + [SLASH], true)) == [Dirent(name, 0)]
  {
    hide SlashIndex;
    assert name + [SLASH] == name + [SLASH] + [];
    GetLinePrinted(name, [], []);
    assert SlashIndex([]) == 0;
  }

  /** An empty name ends the directory, whatever follows. */
  lemma EmptyNameEndsParse(rest: Text)
    ensures ParseDir([SLASH] + rest) == []
  {
    assert [SLASH] + rest == [] + [SLASH] + rest;
    GetLinePrinted([], rest, []);
  }

  lemma ParseSlashName()
    ensures ParseDir([97] + [SLASH] + ([98] + [SLASH] + ([53] + [SLASH]))) == [Dirent([97], 0), Dirent([53], 0)]
  {
    assert AtoI([98]) == 0;
    hide AtoI, ParseFrom;
    ParseOne([97], [98], [53] + [SLASH]);
    ParseBareName([53]);
  }

  lemma Regroup(a: Text, b: Text, c: Text)
    ensures a + [SLASH] + b + [SLASH] + c + [SLASH] == a + [SLASH] + (b + [SLASH] + (c + [SLASH]))
  {}

  /** Entries that do not come back: a/b with number 5 is read as two entries, and an empty name
      as none. */
  lemma ParseCanDiffer()
    ensures ParseDir(PrintDir([Dirent([97] + [SLASH] + [98], 5)])) == [Dirent([97], 0), Dirent([53], 0)]
    ensures ParseDir(PrintDir([Dirent([], 5)])) == []
  {
    assert ShowNat(5) == [53];
    hide ParseDir, ParseFrom, PrintDir, ShowNat;
    PrintSingle(Dirent([97] + [SLASH] + [98], 5));
    PrintSingle(Dirent([], 5));
    Regroup([97], [98], [53]);
    ParseSlashName();
    assert [] + [SLASH] == [SLASH];
    assert PrintEntry(Dirent([], 5)) == [SLASH] + ([53] + [SLASH]);
    EmptyNameEndsParse([53] + [SLASH]);
  }

  lemma FormatRead()
    ensures ParseDir([97, 47, 50, 47]) == [Dirent([97], 2)]
    ensures ParseDir([97, 47]) == [Dirent([97], 0)]
  {
    assert AtoI([50]) == 2;
    assert [97, 47, 50, 47] == [97] + [SLASH] + ([50] + [SLASH] + []);
    assert [97, 47] == [97] + [SLASH];
    hide AtoI, ParseFrom;
    ParseOne([97], [50], []);
    assert ParseFrom(Stream([], true)) == [] by {
      ParseBound(Stream([], true));
    }
    ParseBareName([97]);
  }

  lemma SmallNumbers()
    ensures AtoI([32, 45, 53]) == -5 && AtoI([43, 55, 120, 56]) == 7
  {
    assert [32, 45, 53][1..] == [45, 53] && [45, 53][1..] == [53] && [53][1..] == [];
    assert [43, 55, 120, 56][1..] == [55, 120, 56] && [55, 120, 56][1..] == [120, 56];
    assert ReadDigits([], 5) == 5 && ReadDigits([53], 0) == 5;
    assert ReadDigits([120, 56], 7) == 7;
  }

  lemma FormatWritten()
    ensures PrintEntry(Dirent([97], 1023)) == [97, 47, 49, 48, 50, 51, 47]
  {
    assert ShowNat(1) == [49];
    assert ShowNat(10) == [49, 48];
    assert ShowNat(102) == [49, 48, 50];
    assert ShowNat(1023) == [49, 48, 50, 51];
  }

  /** The format in plain bytes: a slash is 47 and digits are decimal from 48. The name a with
      number 1023 is written a/1023/, and a/2/ is read as the name a with number 2. */
  lemma FormatInBytes()
    ensures PrintEntry(Dirent([97], 1023)) == [97, 47, 49, 48, 50, 51, 47]
    ensures ParseDir([97, 47, 50, 47]) == [Dirent([97], 2)]
    ensures ParseDir([97, 47]) == [Dirent([97], 0)]
    ensures AtoI([32, 45, 53]) == -5 && AtoI([43, 55, 120, 56]) == 7
  {
    hide PrintEntry, ParseDir, AtoI;
    FormatWritten();
    FormatRead();
    SmallNumbers();
  }

  /** Appending one printed entry to the text appends one entry to the directory. */
  lemma {:induction false} PrintAppend(es: seq<Dirent>, e: Dirent)
    ensures PrintDir(es + [e]) == PrintDir(es) + PrintEntry(e)
    decreases |es|
  {
    if es == [] {
      assert [e][1..] == [];
    } else {
      assert (es + [e])[1..] == es[1..] + [e];
      PrintAppend(es[1..], e);
    }
  }

  lemma ParseAppend(es: seq<Dirent>, e: Dirent)
    requires ValidEntries(es) && ValidEntry(e)
    ensures ParseDir(PrintDir(es) + PrintEntry(e)) == ParseDir(PrintDir(es)) + [e]
  {
    PrintAppend(es, e);
    ParsePrint(es);
    ParsePrint(es + [e]);
  }

  lemma {:induction false} PrintConcat(a: seq<Dirent>, b: seq<Dirent>)
    ensures PrintDir(a + b) == PrintDir(a) + PrintDir(b)
    decreases |a|
  {
    if a == [] {
      assert a + b == b;
    } else {
      assert (a + b)[1..] == a[1..] + b;
      PrintConcat(a[1..], b);
    }
  }

  // ---------------------------------------------------------------- entries as a finite map

  /** Position of the first entry with a name; the length of the list when there is none. */
  function FindName(es: seq<Dirent>, name: Text): (n: nat)
    ensures n <= |es|
    ensures n < |es| ==> es[n].name == name
    ensures forall k :: 0 <= k < n ==> es[k].name != name
  {
    if es == [] || es[0].name == name then 0 else 1 + FindName(es[1..], name)
  }

  predicate Bound(es: seq<Dirent>, name: Text) {
    FindName(es, name) < |es|
  }

  /** list.erase at the first entry with the name. */
  function RemoveName(es: seq<Dirent>, name: Text): seq<Dirent> {
    var n := FindName(es, name);
    if n < |es| then es[..n] + es[n + 1..] else es
  }

  /** Erasing an entry never makes the text longer. */
  lemma RemovePrintsLess(es: seq<Dirent>, name: Text)
    ensures |PrintDir(RemoveName(es, name))| <= |PrintDir(es)|
  {
    var n := FindName(es, name);
    if n < |es| {
      assert es == es[..n] + ([es[n]] + es[n + 1..]);
      PrintConcat(es[..n], [es[n]] + es[n + 1..]);
      PrintConcat(es[..n], es[n + 1..]);
      assert ([es[n]] + es[n + 1..])[1..] == es[n + 1..];
    }
  }

  /** Of several entries of one name the first is erased. */
  lemma RemoveIsFirst(es: seq<Dirent>, a: seq<Dirent>, e: Dirent, b: seq<Dirent>)
    requires es == a + [e] + b && forall k :: 0 <= k < |a| ==> a[k].name != e.name
    ensures RemoveName(es, e.name) == a + b
  {
    var n := FindName(es, e.name);
    assert es[|a|] == e;
    assert n == |a|;
  }

  ghost predicate UniqueNames(es: seq<Dirent>) {
    forall a, b :: 0 <= a < b < |es| ==> es[a].name != es[b].name
  }

  /** The binding that lookup answers from. */
  function Bindings(es: seq<Dirent>): map<Text, nat> {
    map k: nat | k < |es| && FindName(es, es[k].name) == k :: es[k].name := es[k].inum
  }

  lemma {:induction false} FindAppended(es: seq<Dirent>, e: Dirent)
    requires !Bound(es, e.name)
    ensures FindName(es + [e], e.name) == |es|
    decreases |es|
  {
    if es == [] {
    } else {
      assert (es + [e])[1..] == es[1..] + [e];
      FindAppended(es[1..], e);
    }
  }

  /** lookup answers from the bindings, bound or not. */
  lemma LookupIsBinding(es: seq<Dirent>, name: Text)
    ensures name in Bindings(es) <==> Bound(es, name)
    ensures Bound(es, name) ==> Bindings(es)[name] == es[FindName(es, name)].inum
  {}

  lemma {:induction false} FindOther(es: seq<Dirent>, e: Dirent, name: Text)
    ensures FindName(es + [e], name) ==
      if Bound(es, name) then FindName(es, name) else if name == e.name then |es| else |es| + 1
    decreases |es|
  {
    if es == [] || es[0].name == name {
    } else {
      assert (es + [e])[1..] == es[1..] + [e];
      FindOther(es[1..], e, name);
    }
  }

  /** Appending an entry with a free name adds one binding. */
  lemma AppendBinds(es: seq<Dirent>, e: Dirent)
    requires !Bound(es, e.name)
    ensures Bindings(es + [e]) == Bindings(es)[e.name := e.inum]
  {
    FindAppended(es, e);
    forall name ensures FindName(es + [e], name) ==
      if Bound(es, name) then FindName(es, name) else if name == e.name then |es| else |es| + 1
    {
      FindOther(es, e, name);
    }
  }

  lemma UniqueIsFound(es: seq<Dirent>, k: nat)
    requires UniqueNames(es) && k < |es|
    ensures FindName(es, es[k].name) == k
  {}

  lemma RemoveShape(es: seq<Dirent>, name: Text)
    requires UniqueNames(es) && Bound(es, name)
    ensures var f, rs := FindName(es, name), RemoveName(es, name);
            && UniqueNames(rs) && |rs| == |es| - 1
            && (forall k :: 0 <= k < |rs| ==> rs[k] == es[if k < f then k else k + 1] && rs[k].name != name)
  {
    hide FindName;
    var f, rs := FindName(es, name), RemoveName(es, name);
    forall k | 0 <= k < |rs| ensures rs[k] == es[if k < f then k else k + 1] && rs[k].name != name {
      assert es[if k < f then k else k + 1].name != es[f].name;
    }
  }

  lemma RemoveKeepsFound(es: seq<Dirent>, name: Text, x: Text)
    requires UniqueNames(es) && Bound(es, name) && Bound(es, x) && x != name
    ensures Bound(RemoveName(es, name), x)
  {
    RemoveShape(es, name);
    hide RemoveName, FindName;
    var f, rs := FindName(es, name), RemoveName(es, name);
    var k := FindName(es, x);
    var k' := if k < f then k else k - 1;
    assert rs[k'] == es[k];
    UniqueIsFound(rs, k');
  }

  lemma RemoveFindsOld(es: seq<Dirent>, name: Text, x: Text)
    requires UniqueNames(es) && Bound(es, name) && Bound(RemoveName(es, name), x)
    ensures var rs := RemoveName(es, name);
            x != name && Bound(es, x) && rs[FindName(rs, x)] == es[FindName(es, x)]
  {
    RemoveShape(es, name);
    hide RemoveName, FindName;
    var k := FindName(RemoveName(es, name), x);
    UniqueIsFound(es, if k < FindName(es, name) then k else k + 1);
  }

  /** Erasing the entry of a name removes one binding and reveals no other. */
  lemma RemoveUnbinds(es: seq<Dirent>, name: Text)
    requires UniqueNames(es)
    ensures Bindings(RemoveName(es, name)) == Bindings(es) - {name}
  {
    var rs := RemoveName(es, name);
    LookupIsBinding(es, name);
    if Bound(es, name) {
      forall x
        ensures x in Bindings(rs) <==> x in Bindings(es) && x != name
        ensures x in Bindings(rs) ==> Bindings(rs)[x] == Bindings(es)[x]
      {
        hide RemoveName, Bindings;
        LookupIsBinding(rs, x);
        LookupIsBinding(es, x);
        if Bound(rs, x) {
          RemoveFindsOld(es, name, x);
        } else if Bound(es, x) && x != name {
          RemoveKeepsFound(es, name, x);
        }
      }
    }
  }
}
