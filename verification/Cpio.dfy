/** The initrd extractor of CpioExtractor.cpp: a walk over the headers of a newc archive. */
module Cpio {
  import opened Basics

  const HEADER: nat := 110
  const MODE_AT: nat := 14
  const FILESIZE_AT: nat := 54
  const NAMESIZE_AT: nat := 94

  /** Digits of a field */
  const DIGITS: nat := 8

  /** "070702" */
  const MAGIC: seq<Byte> := [48, 55, 48, 55, 48, 50]

  /** "TRAILER!!!" */
  const TRAILER: seq<Byte> := [84, 82, 65, 73, 76, 69, 82, 33, 33, 33]

  /** "." */
  const DOT: seq<Byte> := [46]

  // ---------------------------------------------------------- hexadecimal

  function DigitValue(b: Byte): int {
    if 48 <= b <= 57 then b - 48 else if 97 <= b <= 102 then b - 87 else if 65 <= b <= 70 then b - 55 else -1
  }

  /** "0123456789ABCDEF" and "0123456789abcdef" */
  const UPPER: seq<Byte> := [48, 49, 50, 51, 52, 53, 54, 55, 56, 57, 65, 66, 67, 68, 69, 70]
  const LOWER: seq<Byte> := [48, 49, 50, 51, 52, 53, 54, 55, 56, 57, 97, 98, 99, 100, 101, 102]

  lemma DigitTable(b: Byte)
    ensures forall v :: 0 <= v < 16 ==> DigitValue(UPPER[v]) == v == DigitValue(LOWER[v])
    ensures DigitValue(b) < 0 <==> b !in UPPER && b !in LOWER
  {
    if DigitValue(b) >= 0 { assert UPPER[DigitValue(b)] == b || LOWER[DigitValue(b)] == b; }
  }

  function DigitChar(v: nat): (b: Byte)
    requires v < 16
    ensures DigitValue(b) == v
  {
    if v < 10 then 48 + v else 55 + v
  }

  /** The digits at the front of `s`, read in base 16 after `acc`. */
  function HexValue(acc: nat, s: seq<Byte>): nat
    decreases |s|
  {
    if s == [] || DigitValue(s[0]) < 0 then acc else HexValue(16 * acc + DigitValue(s[0]), s[1..])
  }

  function SkipBlanks(s: seq<Byte>): seq<Byte> {
    if s != [] && (s[0] == 32 || 9 <= s[0] <= 13) then SkipBlanks(s[1..]) else s
  }

  /** strtoul in base 16 of a field of at most eight characters: blanks, a sign and a
      prefix 0x are accepted before the digits. */
  function Strtoul16(s: seq<Byte>): nat {
    var t := SkipBlanks(s);
    var neg := t != [] && t[0] == 45;
    var u := if t != [] && (t[0] == 45 || t[0] == 43) then t[1..] else t;
    var w := if |u| > 2 && u[0] == 48 && (u[1] == 120 || u[1] == 88) && DigitValue(u[2]) >= 0 then u[2..] else u;
    var v := HexValue(0, w) % WORD;
    if neg then (WORD - v) % WORD else v
  }

  function Pow16(n: nat): nat { if n == 0 then 1 else 16 * Pow16(n - 1) }

  /** The `n` low hexadecimal digits of `v`. */
  function Hex(v: nat, n: nat): (s: seq<Byte>)
    ensures |s| == n && forall i :: 0 <= i < n ==> DigitValue(s[i]) >= 0
  {
    if n == 0 then [] else Hex(v / 16, n - 1) + [DigitChar(v % 16)]
  }

  lemma {:induction false} HexReadsBack(v: nat, n: nat, rest: seq<Byte>)
    requires v < Pow16(n)
    ensures HexValue(0, Hex(v, n) + rest) == HexValue(v, rest)
    decreases n
  {
    if n == 0 {
      assert Hex(v, n) + rest == rest;
    } else {
      var d := DigitChar(v % 16);
      HexReadsBack(v / 16, n - 1, [d] + rest);
      assert Hex(v, n) + rest == Hex(v / 16, n - 1) + ([d] + rest);
      assert ([d] + rest)[1..] == rest;
    }
  }

  /** The field `s` holds the number `v`, in digits of either case. */
  ghost predicate Spells(s: seq<Byte>, v: nat) {
    |s| == DIGITS && forall i :: 0 <= i < DIGITS ==> DigitValue(s[i]) == DigitValue(Hex(v, DIGITS)[i])
  }

  lemma {:induction false} SameDigits(acc: nat, s: seq<Byte>, t: seq<Byte>)
    requires |s| == |t| && forall i :: 0 <= i < |s| ==> DigitValue(s[i]) == DigitValue(t[i])
    ensures HexValue(acc, s) == HexValue(acc, t)
    decreases |s|
  {
    if s != [] && DigitValue(s[0]) >= 0 { SameDigits(16 * acc + DigitValue(s[0]), s[1..], t[1..]); }
  }

  /** A field written in hexadecimal, in capitals or not, is read back. */
  lemma FieldRoundTrip(s: seq<Byte>, v: nat)
    requires v < WORD && Spells(s, v)
    ensures Strtoul16(s) == v
  {
    EightDigits();
    HexReadsBack(v, DIGITS, []);
    assert Hex(v, DIGITS) + [] == Hex(v, DIGITS);
    SameDigits(0, s, Hex(v, DIGITS));
    PlainDigits(s);
  }

  /** Eight digits are read as they stand: no blanks, sign or prefix. */
  lemma PlainDigits(s: seq<Byte>)
    requires |s| == 8 && DigitValue(s[0]) >= 0 && DigitValue(s[1]) >= 0 && HexValue(0, s) < WORD
    ensures Strtoul16(s) == HexValue(0, s)
  {
    assert SkipBlanks(s) == s;
  }

  predicate AllDigits(s: seq<Byte>) { |s| > 0 && forall i :: 0 <= i < |s| ==> DigitValue(s[i]) >= 0 }

  /** What else strtoul takes before the digits: blanks, a sign, the prefix 0x */
  lemma StrtoulBlank(t: seq<Byte>)
    requires |t| > 0 && (t[0] == 32 || 9 <= t[0] <= 13)
    ensures Strtoul16(t) == Strtoul16(t[1..])
  {
  }

  lemma StrtoulSigned(t: seq<Byte>)
    requires |t| > 0 && AllDigits(t[1..])
    ensures t[0] == 43 ==> Strtoul16(t) == HexValue(0, t[1..]) % WORD
    ensures t[0] == 45 ==> Strtoul16(t) == (WORD - HexValue(0, t[1..]) % WORD) % WORD
  {
    assert DigitValue(t[1..][0]) >= 0 && (|t| > 2 ==> DigitValue(t[1..][1]) >= 0);
  }

  lemma StrtoulPrefixed(t: seq<Byte>)
    requires |t| > 2 && t[0] == 48 && (t[1] == 120 || t[1] == 88) && AllDigits(t[2..])
    ensures Strtoul16(t) == HexValue(0, t[2..]) % WORD
  {
    assert DigitValue(t[2..][0]) >= 0;
  }

  /** Anything else makes the field zero. */
  lemma StrtoulNone(s: seq<Byte>, b: Byte)
    requires DigitValue(b) < 0 && b != 43 && b != 45 && b != 32 && !(9 <= b <= 13)
    ensures Strtoul16([b] + s) == 0
  {
    assert SkipBlanks([b] + s) == [b] + s;
  }

  lemma EightDigits()
    ensures Pow16(DIGITS) == WORD
  {
    assert Pow16(2) == 256 && Pow16(4) == 65536 && Pow16(6) == 0x100_0000;
  }

  // -------------------------------------------------------------- parsing

  datatype Entry = Entry(mode: nat, name: seq<Byte>, data: seq<Byte>)

  /** What the extractor does for an entry. */
  datatype Action = MakeDirectory(name: seq<Byte>) | WriteFile(name: seq<Byte>, data: seq<Byte>)

  /** The bit tested for a directory, 0040000. */
  predicate DirectoryBit(mode: nat) { (mode / 0x4000) % 2 == 1 }

  function ActionOf(e: Entry): Action {
    if DirectoryBit(e.mode) then MakeDirectory(e.name) else WriteFile(e.name, e.data)
  }

  function Align4(x: nat): (r: nat)
    ensures x <= r < x + 4 && r % 4 == 0
  {
    (x + 3) / 4 * 4
  }

  /** The bytes of `s` before the first zero. */
  function CString(s: seq<Byte>): seq<Byte> {
    if s == [] || s[0] == 0 then [] else [s[0]] + CString(s[1..])
  }

  /** The three numbers read from a header. */
  datatype Fields = Fields(mode: nat, fileSize: nat, nameSize: nat)

  function ReadFields(hd: seq<Byte>): Fields
    requires |hd| == HEADER
  {
    Fields(Strtoul16(hd[MODE_AT..MODE_AT + 8]), Strtoul16(hd[FILESIZE_AT..FILESIZE_AT + 8]),
           Strtoul16(hd[NAMESIZE_AT..NAMESIZE_AT + 8]))
  }

  /** What parseCpioFile makes of a header; `dataAt` and `next` are addresses. */
  datatype Parsed = Fault | File(mode: nat, name: seq<Byte>, dataAt: nat, fileSize: nat, next: nat)

  /** std::string of a C string, cut to at most `n` characters */
  function Name(s: seq<Byte>, n: nat): seq<Byte> {
    var c := CString(s);
    if |c| <= n then c else c[..n]
  }

  /** It is what stands before the first zero or the end of the `n` characters, whichever comes first. */
  lemma {:induction false} NameMeans(s: seq<Byte>, n: nat)
    requires 0 in s
    ensures var r := Name(s, n); |r| <= n && r <= s && 0 !in r && (|r| == n || (|r| < |s| && s[|r|] == 0))
    decreases |s|
  {
    CStringMeans(s);
  }

  lemma {:induction false} CStringMeans(s: seq<Byte>)
    requires 0 in s
    ensures var r := CString(s); |r| < |s| && r <= s && 0 !in r && s[|r|] == 0
    decreases |s|
  {
    if s[0] != 0 { CStringMeans(s[1..]); }
  }

  /** parseCpioFile for the header at address `pos` of the memory `mem`, whose bytes are those at the
      addresses from 0 on. Addresses have 32 bits; reading beyond the memory is a fault. */
  function Parse(mem: seq<Byte>, pos: nat): Parsed {
    if pos + HEADER > |mem| || 0 !in mem[pos + HEADER..] then Fault
    else
      var f := ReadFields(mem[pos..pos + HEADER]);
      File(f.mode, Name(mem[pos + HEADER..], f.nameSize), DataAddr(pos, f), f.fileSize, NextAddr(pos, f))
  }

  function DataAddr(pos: nat, f: Fields): nat { Align4(pos + HEADER + f.nameSize) % WORD }

  function NextAddr(pos: nat, f: Fields): nat { Align4(DataAddr(pos, f) + f.fileSize) % WORD }

  /** The addresses parsed are multiples of four below 2^32. */
  lemma ParsedAddrs(mem: seq<Byte>, pos: nat)
    requires Parse(mem, pos).File?
    ensures var p := Parse(mem, pos); p.dataAt < WORD && p.dataAt % 4 == 0 && p.next < WORD && p.next % 4 == 0
  {
    var f := ReadFields(mem[pos..pos + HEADER]);
    WrapFour(Align4(pos + HEADER + f.nameSize));
    WrapFour(Align4(DataAddr(pos, f) + f.fileSize));
  }

  lemma WrapFour(x: nat)
    requires x % 4 == 0
    ensures x % WORD < WORD && x % WORD % 4 == 0
  {
    assert x == WORD * (x / WORD) + x % WORD && WORD == 4 * 0x4000_0000;
  }

  /** How the loop ends; `Running` when it has not yet. */
  datatype Outcome = Extracted | BadMagic | Crashed | Running

  /** One turn of the loop: it ends, or performs an action and goes on at an address. */
  datatype Turn = Stop(outcome: Outcome) | Act(action: Action, next: nat)

  function Step(mem: seq<Byte>, pos: nat): Turn {
    if pos + 6 > |mem| then Stop(Crashed)
    else if mem[pos..pos + 6] != MAGIC then Stop(BadMagic)
    else Decide(mem, Parse(mem, pos))
  }

  /** What extract does with a parsed header; only here are a file's bytes read. */
  function Decide(mem: seq<Byte>, p: Parsed): Turn {
    if p.Fault? then Stop(Crashed)
    else if Stops(p.name) then Stop(Extracted)
    else if DirectoryBit(p.mode) then Act(MakeDirectory(p.name), p.next)
    else if p.dataAt + p.fileSize > |mem| then Stop(Crashed)
    else Act(WriteFile(p.name, mem[p.dataAt..p.dataAt + p.fileSize]), p.next)
  }

  predicate MagicAt(mem: seq<Byte>, pos: nat) { pos + 6 <= |mem| && mem[pos..pos + 6] == MAGIC }

  predicate Stops(name: seq<Byte>) { name == TRAILER || name == DOT }

  // ---------------------------------------------------------- the archive

  /** "." and "TRAILER!!!" end an archive. */
  predicate EndName(name: seq<Byte>) { name == [46] || name == [84, 82, 65, 73, 76, 69, 82, 33, 33, 33] }

  predicate EntryOk(e: Entry) {
    && e.mode < WORD && |e.name| + 1 < WORD && |e.data| < WORD && !EndName(e.name)
    && forall i :: 0 <= i < |e.name| ==> e.name[i] != 0
  }

  /** An entry that ends an archive, with any mode and data */
  predicate EndOk(e: Entry) { e.mode < WORD && |e.data| < WORD && EndName(e.name) }

  /** A header with the numbers `f`; the fields the extractor does not read are free. */
  ghost predicate Describes(hd: seq<Byte>, f: Fields) {
    && |hd| == HEADER && hd[..6] == MAGIC
    && Spells(hd[MODE_AT..MODE_AT + 8], f.mode)
    && Spells(hd[FILESIZE_AT..FILESIZE_AT + 8], f.fileSize)
    && Spells(hd[NAMESIZE_AT..NAMESIZE_AT + 8], f.nameSize)
  }

  function FieldsOf(e: Entry): Fields { Fields(e.mode, |e.data|, |e.name| + 1) }

  function DataAt(pos: nat, e: Entry): nat { Align4(pos + HEADER + |e.name| + 1) }

  function NextAt(pos: nat, e: Entry): nat { Align4(DataAt(pos, e) + |e.data|) }

  /** Entry `e` lies at address `pos`, all of it below 2^32. */
  ghost predicate EntryAt(mem: seq<Byte>, pos: nat, e: Entry) {
    var nameAt, dataAt := pos + HEADER, DataAt(pos, e);
    && dataAt + |e.data| <= |mem| && Describes(mem[pos..nameAt], FieldsOf(e))
    && mem[nameAt..nameAt + |e.name| + 1] == e.name + [0]
    && mem[dataAt..dataAt + |e.data|] == e.data && NextAt(pos, e) < WORD
  }

  /** From `pos` on lie the entries `es`, up to the end of the archive or to the entry `stop`. */
  ghost predicate ArchiveAt(mem: seq<Byte>, end: nat, pos: nat, es: seq<Entry>, stop: Entry)
    decreases |es|
  {
    if es == [] then EndOk(stop) && EntryAt(mem, pos, stop)
    else
      && EntryOk(es[0]) && EntryAt(mem, pos, es[0])
      && var next := NextAt(pos, es[0]);
         if next >= end then |es| == 1 else ArchiveAt(mem, end, next, es[1..], stop)
  }

  /** The name is read up to its zero. */
  lemma {:induction false} CStringOf(s: seq<Byte>, name: seq<Byte>)
    requires |name| < |s| && s[..|name|] == name && s[|name|] == 0 && forall i :: 0 <= i < |name| ==> name[i] != 0
    ensures CString(s) == name
    decreases |name|
  {
    if name != [] {
      assert s[0] == name[0] && s[1..][..|name| - 1] == name[1..];
      CStringOf(s[1..], name[1..]);
      assert name == [name[0]] + name[1..];
    }
  }

  ghost predicate Encodable(e: Entry) {
    e.mode < WORD && |e.name| + 1 < WORD && |e.data| < WORD && forall i :: 0 <= i < |e.name| ==> e.name[i] != 0
  }

  lemma ReadDescribed(hd: seq<Byte>, f: Fields)
    requires Describes(hd, f) && f.mode < WORD && f.fileSize < WORD && f.nameSize < WORD
    ensures ReadFields(hd) == f
  {
    FieldRoundTrip(hd[MODE_AT..MODE_AT + 8], f.mode);
    FieldRoundTrip(hd[FILESIZE_AT..FILESIZE_AT + 8], f.fileSize);
    FieldRoundTrip(hd[NAMESIZE_AT..NAMESIZE_AT + 8], f.nameSize);
  }

  lemma AddrOf(q: nat, x: nat)
    ensures Align4(4 * q + x) == 4 * q + Align4(x)
  {
  }

  lemma NameOf(mem: seq<Byte>, nameAt: nat, name: seq<Byte>)
    requires nameAt + |name| + 1 <= |mem| && mem[nameAt..nameAt + |name| + 1] == name + [0]
    requires forall i :: 0 <= i < |name| ==> name[i] != 0
    ensures 0 in mem[nameAt..] && Name(mem[nameAt..], |name| + 1) == name
  {
    var s, t := mem[nameAt..], mem[nameAt..nameAt + |name| + 1];
    assert s[|name|] == t[|name|] == 0;
    assert s[..|name|] == t[..|name|] == name;
    CStringOf(s, name);
  }

  /** The addresses of an entry do not wrap. */
  lemma AddrsOf(pos: nat, e: Entry)
    requires NextAt(pos, e) < WORD
    ensures DataAddr(pos, FieldsOf(e)) == DataAt(pos, e) && NextAddr(pos, FieldsOf(e)) == NextAt(pos, e)
  {
    NoWrap(DataAt(pos, e));
    NoWrap(NextAt(pos, e));
  }

  lemma ParseIs(mem: seq<Byte>, pos: nat, f: Fields, name: seq<Byte>)
    requires pos + HEADER <= |mem| && ReadFields(mem[pos..pos + HEADER]) == f
    requires 0 in mem[pos + HEADER..] && Name(mem[pos + HEADER..], f.nameSize) == name
    ensures Parse(mem, pos) == File(f.mode, name, DataAddr(pos, f), f.fileSize, NextAddr(pos, f))
  {
  }

  /** What is to be parsed of entry `e` at `pos` */
  function Described(pos: nat, e: Entry): Parsed { File(e.mode, e.name, DataAt(pos, e), |e.data|, NextAt(pos, e)) }

  lemma ParseEntry(mem: seq<Byte>, pos: nat, e: Entry)
    requires EntryAt(mem, pos, e) && Encodable(e)
    ensures MagicAt(mem, pos) && Parse(mem, pos) == Described(pos, e)
  {
    ReadDescribed(mem[pos..pos + HEADER], FieldsOf(e));
    NameOf(mem, pos + HEADER, e.name);
    ParseIs(mem, pos, FieldsOf(e), e.name);
    AddrsOf(pos, e);
    Prefix(mem, pos);
  }

  lemma Prefix(mem: seq<Byte>, pos: nat)
    requires pos + HEADER <= |mem|
    ensures mem[pos..pos + 6] == mem[pos..pos + HEADER][..6]
  {
  }

  function Actions(es: seq<Entry>): seq<Action> {
    if es == [] then [] else [ActionOf(es[0])] + Actions(es[1..])
  }

  /** `step` gives the turns that the memory `mem` makes. */
  ghost predicate IsTurns(step: nat -> Turn, mem: seq<Byte>) {
    forall pos: nat {:trigger Step(mem, pos)} :: step(pos) == Step(mem, pos)
  }

  function Turns(mem: seq<Byte>): nat -> Turn { (pos: nat) => Step(mem, pos) }

  lemma TurnsAre(mem: seq<Byte>)
    ensures IsTurns(Turns(mem), mem)
  {
  }

  /** The loop of extract over the turns `step`, at most `turns` of them, from address `pos` on and after
      the actions `done`; the archive ends at `end`. */
  function Loop(step: nat -> Turn, end: nat, pos: nat, done: seq<Action>, turns: nat): (Outcome, seq<Action>)
    decreases turns
  {
    if turns == 0 then (Running, done)
    else
      match step(pos)
      case Stop(o) => (o, done)
      case Act(a, next) =>
        if next >= end then (Extracted, done + [a]) else Loop(step, end, next, done + [a], turns - 1)
  }

  /** The loop over the `size` bytes at `base` */
  function Walk(step: nat -> Turn, base: nat, size: nat, turns: nat): (Outcome, seq<Action>) {
    Loop(step, base + size, base, [], turns)
  }

  /** extract, at most `turns` turns of it. Whether it ever ends is known after more turns than there are
      addresses up to the end of the archive. */
  method Extract(mem: seq<Byte>, base: nat, size: nat, turns: nat, ghost step: nat -> Turn)
    returns (r: Outcome, done: seq<Action>)
    requires IsTurns(step, mem)
    ensures (r, done) == Walk(step, base, size, turns)
    ensures turns > base + size ==> (r == Running <==> Repeats(step, base + size, base))
  {
    done := [];
    var pos, left := base, turns;
    EndIff(step, mem, base + size, base, turns);
    while left > 0
      invariant Loop(step, base + size, pos, done, left) == Loop(step, base + size, base, [], turns)
    {
      var t := Step(mem, pos);
      if t.Stop? {
        return t.outcome, done;
      }
      done := done + [t.action];
      if t.next >= base + size {
        return Extracted, done;
      }
      pos, left := t.next, left - 1;
    }
    return Running, done;
  }

  // ----------------------------------------------------------- termination

  /** The address after `n` turns from `pos` on, if the loop still runs */
  function At(step: nat -> Turn, end: nat, pos: nat, n: nat): Option<nat>
    decreases n
  {
    if n == 0 then Some(pos)
    else if step(pos).Act? && step(pos).next < end then At(step, end, step(pos).next, n - 1)
    else None
  }

  /** The loop comes to an address twice. */
  ghost predicate Repeats(step: nat -> Turn, end: nat, pos: nat) {
    exists i: nat, j: nat :: i < j && Meets(step, end, pos, i, j)
  }

  predicate Meets(step: nat -> Turn, end: nat, pos: nat, i: nat, j: nat) {
    At(step, end, pos, i).Some? && At(step, end, pos, i) == At(step, end, pos, j)
  }

  /** No turn that stops the loop leaves it running. */
  ghost predicate Proper(step: nat -> Turn) { forall pos: nat {:trigger step(pos)} :: step(pos) != Stop(Running) }

  lemma TurnsProper(step: nat -> Turn, mem: seq<Byte>)
    requires IsTurns(step, mem)
    ensures Proper(step)
  {
    forall pos: nat ensures step(pos) != Stop(Running) { assert step(pos) == Step(mem, pos); }
  }

  lemma {:induction false} RunningIff(step: nat -> Turn, end: nat, pos: nat, done: seq<Action>, turns: nat)
    requires Proper(step)
    ensures Loop(step, end, pos, done, turns).0 == Running <==> At(step, end, pos, turns).Some?
    decreases turns
  {
    if turns > 0 && step(pos).Act? && step(pos).next < end {
      RunningIff(step, end, step(pos).next, done + [step(pos).action], turns - 1);
    }
  }

  lemma {:induction false} AtAdd(step: nat -> Turn, end: nat, pos: nat, i: nat, k: nat)
    ensures var x := At(step, end, pos, i);
            At(step, end, pos, i + k) == if x.Some? then At(step, end, x.value, k) else None
    decreases i
  {
    if i > 0 && step(pos).Act? && step(pos).next < end { AtAdd(step, end, step(pos).next, i - 1, k); }
  }

  lemma {:induction false} AtBelow(step: nat -> Turn, end: nat, pos: nat, n: nat)
    requires At(step, end, pos, n + 1).Some?
    ensures At(step, end, pos, n + 1).value < end
    decreases n
  {
    if n > 0 { AtBelow(step, end, step(pos).next, n - 1); }
  }

  lemma AtEarlier(step: nat -> Turn, end: nat, pos: nat, i: nat, j: nat)
    requires i <= j && At(step, end, pos, j).Some?
    ensures At(step, end, pos, i).Some?
  {
    AtAdd(step, end, pos, i, j - i);
  }

  /** A loop that comes to an address twice never ends. */
  lemma {:induction false} RunsOn(step: nat -> Turn, end: nat, pos: nat, i: nat, j: nat, n: nat)
    requires i < j && Meets(step, end, pos, i, j)
    ensures At(step, end, pos, n).Some?
    decreases n
  {
    if n <= j {
      AtEarlier(step, end, pos, n, j);
    } else {
      RunsOn(step, end, pos, i, j, i + n - j);
      AtAdd(step, end, pos, i, n - j);
      AtAdd(step, end, pos, j, n - j);
    }
  }

  lemma {:induction false} Pigeonhole(s: seq<nat>, n: nat) returns (i: nat, j: nat)
    requires |s| > n && forall k :: 0 <= k < |s| ==> s[k] < n
    ensures i < j < |s| && s[i] == s[j]
    decreases n
  {
    i, j := 0, 1;
    if x: nat :| x < |s| && s[x] == n - 1 {
      if y: nat :| y < |s| && y != x && s[y] == n - 1 {
        i, j := if x < y then x else y, if x < y then y else x;
      } else {
        i, j := Pigeonhole(s[..x] + s[x + 1..], n - 1);
        i, j := if i < x then i else i + 1, if j < x then j else j + 1;
      }
    } else {
      assert s[0] < n;
      i, j := Pigeonhole(s, n - 1);
    }
  }

  predicate Inside(step: nat -> Turn, end: nat, pos: nat, n: nat) {
    At(step, end, pos, n).Some? && At(step, end, pos, n).value < end
  }

  /** A loop that still runs after as many turns as there are addresses, and one, has come to one twice. */
  lemma LongRepeats(step: nat -> Turn, end: nat, pos: nat)
    requires At(step, end, pos, end + 1).Some?
    ensures Repeats(step, end, pos)
  {
    forall k: nat | 0 < k <= end + 1 ensures Inside(step, end, pos, k) {
      AtEarlier(step, end, pos, k, end + 1);
      AtBelow(step, end, pos, k - 1);
    }
    var s := seq(end + 1, (k: nat) => if Inside(step, end, pos, k + 1) then At(step, end, pos, k + 1).value else 0);
    forall k | 0 <= k < |s| ensures Inside(step, end, pos, k + 1) && s[k] == At(step, end, pos, k + 1).value {}
    var i, j := Pigeonhole(s, end);
    assert Inside(step, end, pos, i + 1) && Inside(step, end, pos, j + 1);
    assert Meets(step, end, pos, i + 1, j + 1);
  }

  lemma RepeatsOn(step: nat -> Turn, end: nat, pos: nat, n: nat)
    requires Repeats(step, end, pos)
    ensures At(step, end, pos, n).Some?
  {
    var i: nat, j: nat :| i < j && Meets(step, end, pos, i, j);
    RunsOn(step, end, pos, i, j, n);
  }

  lemma LateIff(step: nat -> Turn, end: nat, pos: nat, done: seq<Action>, turns: nat)
    requires Proper(step) && turns > end
    ensures Loop(step, end, pos, done, turns).0 == Running <==> Repeats(step, end, pos)
  {
    RunningIff(step, end, pos, done, turns);
    if Repeats(step, end, pos) {
      RepeatsOn(step, end, pos, turns);
    } else if At(step, end, pos, turns).Some? {
      AtEarlier(step, end, pos, end + 1, turns);
      LongRepeats(step, end, pos);
    }
  }

  lemma LoopForever(step: nat -> Turn, end: nat, pos: nat, done: seq<Action>, turns: nat)
    requires Proper(step) && Repeats(step, end, pos)
    ensures Loop(step, end, pos, done, turns).0 == Running
  {
    RepeatsOn(step, end, pos, turns);
    RunningIff(step, end, pos, done, turns);
  }

  lemma EndIff(step: nat -> Turn, mem: seq<Byte>, end: nat, pos: nat, turns: nat)
    requires IsTurns(step, mem)
    ensures turns > end ==> (Loop(step, end, pos, [], turns).0 == Running <==> Repeats(step, end, pos))
  {
    TurnsProper(step, mem);
    if turns > end { LateIff(step, end, pos, [], turns); }
  }

  /** extract never ends exactly when it comes to an address twice. */
  lemma ForeverIff(step: nat -> Turn, mem: seq<Byte>, base: nat, size: nat)
    requires IsTurns(step, mem)
    ensures (forall turns: nat :: Walk(step, base, size, turns).0 == Running) <==> Repeats(step, base + size, base)
  {
    TurnsProper(step, mem);
    LateIff(step, base + size, base, [], base + size + 1);
    assert Walk(step, base, size, base + size + 1) == Loop(step, base + size, base, [], base + size + 1);
    if Repeats(step, base + size, base) {
      forall turns: nat ensures Walk(step, base, size, turns).0 == Running {
        LoopForever(step, base + size, base, [], turns);
      }
    }
  }

  /** A turn that does not lead back to its address or before it */
  predicate Advances(step: nat -> Turn, pos: nat) { step(pos).Act? ==> step(pos).next > pos }

  /** None of the headers the loop comes to leads back. */
  ghost predicate NoneReturns(step: nat -> Turn, end: nat, pos: nat) {
    forall n: nat {:trigger At(step, end, pos, n)} ::
      At(step, end, pos, n).Some? ==> Advances(step, At(step, end, pos, n).value)
  }

  /** Then the loop ends, after no more turns than the archive has bytes. */
  lemma {:induction false} Halts(step: nat -> Turn, end: nat, pos: nat, n: nat)
    requires NoneReturns(step, end, pos) && n > 0 && pos + n > end
    ensures At(step, end, pos, n) == None
    decreases n
  {
    assert At(step, end, pos, 0) == Some(pos);
    if step(pos).Act? && step(pos).next < end {
      forall k: nat | At(step, end, step(pos).next, k).Some?
        ensures Advances(step, At(step, end, step(pos).next, k).value)
      {
        assert At(step, end, pos, k + 1) == At(step, end, step(pos).next, k);
      }
      Halts(step, end, step(pos).next, n - 1);
    }
  }

  /** The sizes in the header at `pos`, if there is one, do not wrap a 32-bit address. */
  predicate SmallAt(mem: seq<Byte>, pos: nat) {
    pos + HEADER <= |mem| ==>
      var f := ReadFields(mem[pos..pos + HEADER]);
      pos + HEADER + f.nameSize + f.fileSize + 6 < WORD
  }

  /** Such a header leads onwards. */
  lemma SmallAdvances(step: nat -> Turn, mem: seq<Byte>, pos: nat)
    requires IsTurns(step, mem) && SmallAt(mem, pos)
    ensures Advances(step, pos)
  {
    assert step(pos) == Step(mem, pos);
    if pos + HEADER <= |mem| {
      var f := ReadFields(mem[pos..pos + HEADER]);
      SmallNext(pos, f);
      StepNext(mem, pos, f);
    }
  }

  /** The headers that the loop comes to do not wrap. */
  ghost predicate AllSmall(step: nat -> Turn, mem: seq<Byte>, end: nat, pos: nat) {
    forall n: nat {:trigger At(step, end, pos, n)} ::
      At(step, end, pos, n).Some? ==> SmallAt(mem, At(step, end, pos, n).value)
  }

  lemma SmallNoneReturns(step: nat -> Turn, mem: seq<Byte>, end: nat, pos: nat)
    requires IsTurns(step, mem) && AllSmall(step, mem, end, pos)
    ensures NoneReturns(step, end, pos)
  {
    forall n: nat | At(step, end, pos, n).Some? ensures Advances(step, At(step, end, pos, n).value) {
      SmallAdvances(step, mem, At(step, end, pos, n).value);
    }
  }

  /** So extraction ends for every archive whose visited headers are such, whatever lies in its files. */
  lemma SmallHalts(step: nat -> Turn, mem: seq<Byte>, base: nat, size: nat, turns: nat)
    requires IsTurns(step, mem) && AllSmall(step, mem, base + size, base) && turns > size
    ensures Walk(step, base, size, turns).0 != Running
  {
    TurnsProper(step, mem);
    SmallNoneReturns(step, mem, base + size, base);
    Halts(step, base + size, base, turns);
    RunningIff(step, base + size, base, [], turns);
  }

  lemma SmallNext(pos: nat, f: Fields)
    requires pos + HEADER + f.nameSize + f.fileSize + 6 < WORD
    ensures NextAddr(pos, f) > pos
  {
    NoWrap(Align4(pos + HEADER + f.nameSize));
    NoWrap(Align4(Align4(pos + HEADER + f.nameSize) + f.fileSize));
  }

  lemma StepNext(mem: seq<Byte>, pos: nat, f: Fields)
    requires pos + HEADER <= |mem| && ReadFields(mem[pos..pos + HEADER]) == f
    ensures Step(mem, pos).Act? ==> Step(mem, pos).next == NextAddr(pos, f)
  {
  }

  /** A directory with a name of one character and a size that takes the address after its data,
      112 bytes on, back by 112 */
  predicate Looping(f: Fields, ch: Byte) {
    f.mode < WORD && DirectoryBit(f.mode) && f.fileSize + 112 == WORD && f.nameSize == 2 && ch != 0 && ch != DOT[0]
  }

  lemma LoopingParsed(mem: seq<Byte>, pos: nat, f: Fields, ch: Byte)
    requires Looping(f, ch) && pos + 112 <= |mem| && mem[pos..pos + 112] == HeaderOf(f) + [ch, 0]
    ensures MagicAt(mem, pos) && Parse(mem, pos) == File(f.mode, [ch], DataAddr(pos, f), f.fileSize, NextAddr(pos, f))
  {
    var s := mem[pos..pos + 112];
    HeaderDescribes(f);
    assert mem[pos..pos + HEADER] == s[..HEADER] == HeaderOf(f);
    ReadDescribed(mem[pos..pos + HEADER], f);
    assert mem[pos + HEADER..pos + 112] == s[HEADER..] == [ch] + [0];
    NameOf(mem, pos + HEADER, [ch]);
    ParseIs(mem, pos, f, [ch]);
    Prefix(mem, pos);
  }

  lemma LoopingNext(q: nat, f: Fields)
    requires f.fileSize + 112 == WORD && f.nameSize == 2 && 4 * q + 112 < WORD
    ensures NextAddr(4 * q, f) == 4 * q
  {
    AddrOf(q, 112);
    NoWrap(4 * q + 112);
    AddrOf(q, WORD);
  }

  lemma LoopingDecided(mem: seq<Byte>, p: Parsed, ch: Byte)
    requires p.File? && DirectoryBit(p.mode) && p.name == [ch] && ch != DOT[0]
    ensures Decide(mem, p) == Act(MakeDirectory([ch]), p.next)
  {
    assert |TRAILER| != 1 && p.name[0] == ch;
  }

  lemma LoopingStep(mem: seq<Byte>, q: nat, f: Fields, ch: Byte)
    requires Looping(f, ch) && 4 * q + 112 <= |mem| && mem[4 * q..4 * q + 112] == HeaderOf(f) + [ch, 0]
    requires 4 * q + 112 < WORD
    ensures Step(mem, 4 * q) == Act(MakeDirectory([ch]), 4 * q)
  {
    LoopingParsed(mem, 4 * q, f, ch);
    LoopingNext(q, f);
    StepIs(mem, 4 * q, Parse(mem, 4 * q));
    LoopingDecided(mem, Parse(mem, 4 * q), ch);
  }

  lemma BackAtOnce(step: nat -> Turn, end: nat, pos: nat)
    requires step(pos).Act? && step(pos).next == pos < end
    ensures Meets(step, end, pos, 0, 1)
  {
  }

  lemma LoopingMeets(step: nat -> Turn, mem: seq<Byte>, q: nat, end: nat, f: Fields, ch: Byte)
    requires IsTurns(step, mem) && 4 * q + 112 < WORD && 4 * q < end
    requires Looping(f, ch) && 4 * q + 112 <= |mem| && mem[4 * q..4 * q + 112] == HeaderOf(f) + [ch, 0]
    ensures Meets(step, end, 4 * q, 0, 1)
  {
    LoopingStep(mem, q, f, ch);
    BackAtOnce(step, end, 4 * q);
  }

  /** At any multiple of four, an archive with that entry first comes back to it after one turn, and so
      never ends: the size wraps the address around. */
  lemma LoopsForever(step: nat -> Turn, mem: seq<Byte>, q: nat, size: nat, f: Fields, ch: Byte)
    requires IsTurns(step, mem) && 4 * q + 112 < WORD && size > 0
    requires Looping(f, ch) && 4 * q + 112 <= |mem| && mem[4 * q..4 * q + 112] == HeaderOf(f) + [ch, 0]
    ensures forall turns: nat :: Walk(step, 4 * q, size, turns).0 == Running
  {
    LoopingMeets(step, mem, q, 4 * q + size, f, ch);
    ForeverIff(step, mem, 4 * q, size);
  }

  // ---------------------------------------------------------- whole archives

  lemma StepIs(mem: seq<Byte>, pos: nat, p: Parsed)
    requires MagicAt(mem, pos) && Parse(mem, pos) == p
    ensures Step(mem, pos) == Decide(mem, p)
  {
  }

  lemma EntryDecided(mem: seq<Byte>, pos: nat, e: Entry)
    requires EntryOk(e) && DataAt(pos, e) + |e.data| <= |mem|
    requires mem[DataAt(pos, e)..DataAt(pos, e) + |e.data|] == e.data
    ensures Decide(mem, Described(pos, e)) == Act(ActionOf(e), NextAt(pos, e))
  {
  }

  lemma StepEntry(mem: seq<Byte>, pos: nat, e: Entry)
    requires EntryOk(e) && EntryAt(mem, pos, e)
    ensures Step(mem, pos) == Act(ActionOf(e), NextAt(pos, e))
  {
    EntryDecided(mem, pos, e);
    ParseEntry(mem, pos, e);
    StepIs(mem, pos, Described(pos, e));
  }

  /** An entry named "." or "TRAILER!!!" ends the extraction. */
  lemma StepEnd(mem: seq<Byte>, pos: nat, e: Entry)
    requires EndOk(e) && EntryAt(mem, pos, e)
    ensures Step(mem, pos) == Stop(Extracted)
  {
    ParseEntry(mem, pos, e);
    StepIs(mem, pos, Described(pos, e));
  }

  /** Extraction fails exactly where six bytes can be read that are not "070702". */
  lemma BadMagicIff(mem: seq<Byte>, pos: nat)
    ensures Step(mem, pos) == Stop(BadMagic) <==> pos + 6 <= |mem| && mem[pos..pos + 6] != [48, 55, 48, 55, 48, 50]
  {
  }

  /** It ends well exactly at a header with the right magic and one of the two names. */
  lemma ExtractedIff(mem: seq<Byte>, pos: nat)
    ensures Step(mem, pos) == Stop(Extracted) <==>
              pos + 6 <= |mem| && mem[pos..pos + 6] == [48, 55, 48, 55, 48, 50]
              && Parse(mem, pos).File? && EndName(Parse(mem, pos).name)
  {
  }

  /** The turns at the entries `es`, whatever their bytes, and the outcome `o` at last */
  ghost predicate TurnsAt(step: nat -> Turn, end: nat, pos: nat, es: seq<Entry>, o: Outcome)
    decreases |es|
  {
    if es == [] then step(pos) == Stop(o)
    else
      && step(pos) == Act(ActionOf(es[0]), NextAt(pos, es[0]))
      && var next := NextAt(pos, es[0]);
         if next >= end then |es| == 1 && o == Extracted else TurnsAt(step, end, next, es[1..], o)
  }

  lemma {:induction false} ArchiveTurns(step: nat -> Turn, mem: seq<Byte>, end: nat, pos: nat, es: seq<Entry>,
          stop: Entry)
    requires IsTurns(step, mem) && ArchiveAt(mem, end, pos, es, stop)
    ensures TurnsAt(step, end, pos, es, Extracted)
    decreases |es|
  {
    if es == [] {
      StepEnd(mem, pos, stop);
    } else {
      StepEntry(mem, pos, es[0]);
      if NextAt(pos, es[0]) < end { ArchiveTurns(step, mem, end, NextAt(pos, es[0]), es[1..], stop); }
    }
  }

  lemma {:induction false} LoopVisitsAll(step: nat -> Turn, end: nat, pos: nat, es: seq<Entry>, o: Outcome,
          done: seq<Action>, turns: nat)
    requires TurnsAt(step, end, pos, es, o) && turns > |es|
    ensures Loop(step, end, pos, done, turns) == (o, done + Actions(es))
    decreases |es|
  {
    if es == [] {
      assert done + Actions(es) == done;
    } else {
      var next, done1 := NextAt(pos, es[0]), done + [ActionOf(es[0])];
      assert done + Actions(es) == done1 + Actions(es[1..]);
      if next < end {
        LoopVisitsAll(step, end, next, es[1..], o, done1, turns - 1);
      } else {
        assert done1 + Actions(es[1..]) == done1;
      }
    }
  }

  /** Every entry of a well-formed archive is visited once and in order, and nothing else, and the
      loop ends: at the end of the archive, or at an entry "." or "TRAILER!!!" whatever follows it. */
  lemma WalkVisitsAll(step: nat -> Turn, mem: seq<Byte>, base: nat, size: nat, es: seq<Entry>, stop: Entry,
          turns: nat)
    requires IsTurns(step, mem) && ArchiveAt(mem, base + size, base, es, stop) && turns > |es|
    ensures Walk(step, base, size, turns) == (Extracted, Actions(es))
  {
    ArchiveTurns(step, mem, base + size, base, es, stop);
    LoopVisitsAll(step, base + size, base, es, Extracted, [], turns);
    assert [] + Actions(es) == Actions(es);
  }

  /** From `pos` on lie the entries `es`, and the next header is to be read at `last`. */
  ghost predicate EntriesTo(mem: seq<Byte>, end: nat, pos: nat, es: seq<Entry>, last: nat)
    decreases |es|
  {
    if es == [] then pos == last
    else
      && EntryOk(es[0]) && EntryAt(mem, pos, es[0]) && NextAt(pos, es[0]) < end
      && EntriesTo(mem, end, NextAt(pos, es[0]), es[1..], last)
  }

  lemma {:induction false} EntriesTurns(step: nat -> Turn, mem: seq<Byte>, end: nat, pos: nat, es: seq<Entry>,
          last: nat, o: Outcome)
    requires IsTurns(step, mem) && EntriesTo(mem, end, pos, es, last) && step(last) == Stop(o)
    ensures TurnsAt(step, end, pos, es, o)
    decreases |es|
  {
    if es != [] {
      StepEntry(mem, pos, es[0]);
      EntriesTurns(step, mem, end, NextAt(pos, es[0]), es[1..], last, o);
    }
  }

  /** Where a header ends the extraction, well or badly, exactly the entries before it have been extracted. */
  lemma WalkUpTo(step: nat -> Turn, mem: seq<Byte>, base: nat, size: nat, es: seq<Entry>, last: nat, o: Outcome,
          turns: nat)
    requires IsTurns(step, mem) && EntriesTo(mem, base + size, base, es, last) && step(last) == Stop(o)
    requires turns > |es|
    ensures Walk(step, base, size, turns) == (o, Actions(es))
  {
    EntriesTurns(step, mem, base + size, base, es, last, o);
    LoopVisitsAll(step, base + size, base, es, o, [], turns);
    assert [] + Actions(es) == Actions(es);
  }

  lemma WalkToDot(step: nat -> Turn, mem: seq<Byte>, base: nat, size: nat, es: seq<Entry>, last: nat, e: Entry,
          turns: nat)
    requires IsTurns(step, mem) && EntriesTo(mem, base + size, base, es, last) && turns > |es|
    requires EntryAt(mem, last, e) && Encodable(e) && e.name == [46]
    ensures Walk(step, base, size, turns) == (Extracted, Actions(es))
  {
    StepEnd(mem, last, e);
    assert step(last) == Step(mem, last);
    WalkUpTo(step, mem, base, size, es, last, Extracted, turns);
  }

  lemma WalkToBadMagic(step: nat -> Turn, mem: seq<Byte>, base: nat, size: nat, es: seq<Entry>, last: nat, turns: nat)
    requires IsTurns(step, mem) && EntriesTo(mem, base + size, base, es, last) && turns > |es|
    requires last + 6 <= |mem| && mem[last..last + 6] != [48, 55, 48, 55, 48, 50]
    ensures Walk(step, base, size, turns) == (BadMagic, Actions(es))
  {
    BadMagicIff(mem, last);
    assert step(last) == Step(mem, last);
    WalkUpTo(step, mem, base, size, es, last, BadMagic, turns);
  }

  // ------------------------------------------------------------- encoding

  function Zeros(n: nat): (s: seq<Byte>)
    ensures |s| == n
  {
    if n == 0 then [] else Zeros(n - 1) + [0]
  }

  /** Digits zero, for the fields the extractor does not read */
  function Unread(n: nat): (s: seq<Byte>)
    ensures |s| == n
  {
    seq(n, _ => 48)
  }

  function HeaderOf(f: Fields): (s: seq<Byte>)
    ensures |s| == HEADER
  {
    MAGIC + Unread(8) + Hex(f.mode, DIGITS) + Unread(32) + Hex(f.fileSize, DIGITS) + Unread(32)
    + Hex(f.nameSize, DIGITS) + Unread(8)
  }

  /** The bytes of an entry that starts at `pos`. */
  function EncodeEntry(pos: nat, e: Entry): (s: seq<Byte>)
    ensures |s| == NextAt(pos, e) - pos
  {
    HeaderOf(FieldsOf(e)) + (e.name + [0]) + Zeros(DataAt(pos, e) - (pos + HEADER + |e.name| + 1)) + e.data
    + Zeros(NextAt(pos, e) - (DataAt(pos, e) + |e.data|))
  }

  function Encode(pos: nat, es: seq<Entry>, stop: Entry): seq<Byte>
    decreases |es|
  {
    if es == [] then EncodeEntry(pos, stop)
    else EncodeEntry(pos, es[0]) + Encode(NextAt(pos, es[0]), es[1..], stop)
  }

  /** A slice that lies in the left part, in the right part, or is the right part. */
  lemma SliceLeft(x: seq<Byte>, y: seq<Byte>, i: nat, j: nat)
    requires i <= j <= |x|
    ensures (x + y)[i..j] == x[i..j]
  {
  }

  lemma SliceRight(x: seq<Byte>, y: seq<Byte>, i: nat, j: nat)
    requires i <= j <= |y|
    ensures (x + y)[|x| + i..|x| + j] == y[i..j]
  {
  }

  lemma HeaderDescribes(f: Fields)
    ensures Describes(HeaderOf(f), f)
  {
    var a := MAGIC + Unread(8);
    var b := a + Hex(f.mode, DIGITS);
    var c := b + Unread(32);
    var d := c + Hex(f.fileSize, DIGITS);
    var h := d + Unread(32);
    var g := h + Hex(f.nameSize, DIGITS);
    assert HeaderOf(f) == g + Unread(8);
    assert g[NAMESIZE_AT..NAMESIZE_AT + 8] == Hex(f.nameSize, DIGITS);
    assert d[FILESIZE_AT..FILESIZE_AT + 8] == Hex(f.fileSize, DIGITS);
    assert b[MODE_AT..MODE_AT + 8] == Hex(f.mode, DIGITS);
    SliceLeft(g, Unread(8), NAMESIZE_AT, NAMESIZE_AT + 8);
    SliceLeft(d, Unread(32), FILESIZE_AT, FILESIZE_AT + 8);
    SliceLeft(h, Hex(f.nameSize, DIGITS), FILESIZE_AT, FILESIZE_AT + 8);
    SliceLeft(g, Unread(8), FILESIZE_AT, FILESIZE_AT + 8);
    SliceLeft(b, Unread(32), MODE_AT, MODE_AT + 8);
    SliceLeft(c, Hex(f.fileSize, DIGITS), MODE_AT, MODE_AT + 8);
    SliceLeft(d, Unread(32), MODE_AT, MODE_AT + 8);
    SliceLeft(h, Hex(f.nameSize, DIGITS), MODE_AT, MODE_AT + 8);
    SliceLeft(g, Unread(8), MODE_AT, MODE_AT + 8);
  }

  lemma EncodedEntry(pre: seq<Byte>, e: Entry, post: seq<Byte>)
    requires NextAt(|pre|, e) < WORD
    ensures EntryAt(pre + EncodeEntry(|pre|, e) + post, |pre|, e)
  {
    var pos, dataAt, n := |pre|, DataAt(|pre|, e), e.name + [0];
    var t := EncodeEntry(pos, e);
    HeaderDescribes(FieldsOf(e));
    InMiddle(pre, t, post, 0, HEADER);
    InMiddle(pre, t, post, HEADER, HEADER + |n|);
    InMiddle(pre, t, post, dataAt - pos, dataAt - pos + |e.data|);
    EntryParts(pos, e);
  }

  lemma InMiddle(pre: seq<Byte>, t: seq<Byte>, post: seq<Byte>, i: nat, j: nat)
    requires i <= j <= |t|
    ensures (pre + t + post)[|pre| + i..|pre| + j] == t[i..j]
  {
    SliceLeft(pre + t, post, |pre| + i, |pre| + j);
    SliceRight(pre, t, i, j);
  }

  lemma EntryParts(pos: nat, e: Entry)
    ensures var t, d := EncodeEntry(pos, e), DataAt(pos, e) - pos;
            && t[0..HEADER] == HeaderOf(FieldsOf(e)) && t[HEADER..HEADER + |e.name| + 1] == e.name + [0]
            && t[d..d + |e.data|] == e.data
  {
    var h, n, d := HeaderOf(FieldsOf(e)), e.name + [0], DataAt(pos, e) - pos;
    var z := Zeros(DataAt(pos, e) - (pos + HEADER + |e.name| + 1));
    var y := Zeros(NextAt(pos, e) - (DataAt(pos, e) + |e.data|));
    var a := h + n;
    var b := a + z;
    var c := b + e.data;
    assert EncodeEntry(pos, e) == c + y;
    SliceLeft(c, y, 0, HEADER);
    SliceLeft(b, e.data, 0, HEADER);
    SliceLeft(a, z, 0, HEADER);
    SliceLeft(c, y, HEADER, HEADER + |n|);
    SliceLeft(b, e.data, HEADER, HEADER + |n|);
    SliceLeft(a, z, HEADER, HEADER + |n|);
    SliceLeft(c, y, d, d + |e.data|);
    assert a[0..HEADER] == h && a[HEADER..HEADER + |n|] == n && c[d..d + |e.data|] == e.data;
  }

  /** The encoding of any list of entries is an archive, wherever it lies below 2^32 and wherever beyond
      its entries the archive is said to end. */
  lemma {:induction false} EncodedArchive(mem: seq<Byte>, pre: seq<Byte>, es: seq<Entry>, stop: Entry,
          post: seq<Byte>, end: nat)
    requires (forall i :: 0 <= i < |es| ==> EntryOk(es[i])) && EndOk(stop)
    requires |pre| + |Encode(|pre|, es, stop)| < WORD && |pre| + |Encode(|pre|, es, stop)| <= end
    requires mem == pre + Encode(|pre|, es, stop) + post
    ensures ArchiveAt(mem, end, |pre|, es, stop)
    decreases |es|
  {
    if es == [] {
      EncodedEntry(pre, stop, post);
    } else {
      EncodedFirst(mem, pre, es, stop, post);
      EncodedArchive(mem, pre + EncodeEntry(|pre|, es[0]), es[1..], stop, post, end);
    }
  }

  lemma EncodedFirst(mem: seq<Byte>, pre: seq<Byte>, es: seq<Entry>, stop: Entry, post: seq<Byte>)
    requires es != [] && |pre| + |Encode(|pre|, es, stop)| < WORD && mem == pre + Encode(|pre|, es, stop) + post
    ensures var first := pre + EncodeEntry(|pre|, es[0]);
            && EntryAt(mem, |pre|, es[0]) && NextAt(|pre|, es[0]) == |first|
            && |first| < |first| + |Encode(|first|, es[1..], stop)| == |pre| + |Encode(|pre|, es, stop)|
            && mem == first + Encode(|first|, es[1..], stop) + post
  {
    var t, tail := EncodeEntry(|pre|, es[0]), Encode(NextAt(|pre|, es[0]), es[1..], stop);
    EncodeNonEmpty(NextAt(|pre|, es[0]), es[1..], stop);
    Assoc(pre, t, tail);
    Assoc(pre + t, tail, post);
    EncodedEntry(pre, es[0], tail + post);
  }

  lemma Assoc(a: seq<Byte>, b: seq<Byte>, c: seq<Byte>)
    ensures a + (b + c) == a + b + c
  {
  }

  lemma EncodeNonEmpty(pos: nat, es: seq<Entry>, stop: Entry)
    ensures |Encode(pos, es, stop)| > 0
  {
  }

  lemma EntryMoved(q: nat, pos: nat, e: Entry)
    ensures DataAt(4 * q + pos, e) == 4 * q + DataAt(pos, e) && NextAt(4 * q + pos, e) == 4 * q + NextAt(pos, e)
    ensures EncodeEntry(4 * q + pos, e) == EncodeEntry(pos, e)
  {
    AddrOf(q, pos + HEADER + |e.name| + 1);
    AddrOf(q, DataAt(pos, e) + |e.data|);
  }

  /** An encoding can be moved by a multiple of four. */
  lemma {:induction false} EncodeMoved(q: nat, pos: nat, es: seq<Entry>, stop: Entry)
    ensures Encode(4 * q + pos, es, stop) == Encode(pos, es, stop)
    decreases |es|
  {
    if es == [] {
      EntryMoved(q, pos, stop);
    } else {
      var t := EncodeEntry(pos, es[0]);
      EntryMoved(q, pos, es[0]);
      assert Encode(4 * q + pos, es, stop) == t + Encode(4 * q + NextAt(pos, es[0]), es[1..], stop);
      EncodeMoved(q, NextAt(pos, es[0]), es[1..], stop);
    }
  }

  lemma EncodedAt(mem: seq<Byte>, pre: seq<Byte>, q: nat, es: seq<Entry>, stop: Entry, post: seq<Byte>, size: nat)
    requires (forall i :: 0 <= i < |es| ==> EntryOk(es[i])) && EndOk(stop) && |pre| == 4 * q
    requires |pre| + |Encode(0, es, stop)| < WORD && |Encode(0, es, stop)| <= size
    requires mem == pre + Encode(0, es, stop) + post
    ensures ArchiveAt(mem, |pre| + size, |pre|, es, stop)
  {
    EncodeMoved(q, 0, es, stop);
    EncodedArchive(mem, pre, es, stop, post, |pre| + size);
  }

  /** Round trip: extracting an encoded list of entries, loaded at any multiple of four between any other
      bytes, performs exactly their actions and ends, with "." or with "TRAILER!!!" at the end and whatever
      follows it in the archive. */
  lemma RoundTrip(step: nat -> Turn, mem: seq<Byte>, pre: seq<Byte>, q: nat, es: seq<Entry>, stop: Entry,
          post: seq<Byte>, size: nat, turns: nat)
    requires (forall i :: 0 <= i < |es| ==> EntryOk(es[i])) && EndOk(stop) && |pre| == 4 * q
    requires |pre| + |Encode(0, es, stop)| < WORD && |Encode(0, es, stop)| <= size
    requires mem == pre + Encode(0, es, stop) + post && IsTurns(step, mem) && turns > |es|
    ensures Walk(step, |pre|, size, turns) == (Extracted, Actions(es))
  {
    EncodedAt(mem, pre, q, es, stop, post, size);
    WalkVisitsAll(step, mem, |pre|, size, es, stop, turns);
  }

  /** The directory test looks at one bit of the file type: besides directories (type 4) it
      takes block devices (6) and sockets (12) for directories. */
  lemma DirectoryBitTypes(mode: nat)
    ensures DirectoryBit(mode) <==> (mode / 0x1000) % 16 in {4, 5, 6, 7, 12, 13, 14, 15}
  {
    var t := mode / 0x1000;
    var q, r := t / 16, t % 16;
    assert mode / 0x4000 == t / 4;
    Quarter(t, 4 * q + r / 4, r % 4);
  }

  lemma Quarter(x: nat, a: nat, m: nat)
    requires x == 4 * a + m && m < 4
    ensures x / 4 == a
  {
  }
}
