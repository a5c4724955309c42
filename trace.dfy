/** The text the simulator writes: 32-bit binary fields (`to_binary32`),
    trace lines of pc and the 32 registers (`format_trace_line`), and the
    memory dump, one `0xAAAAAAAA:0b...` line per address in ascending order
    (`format_memory_dump`). Each format comes with the reading that inverts
    it. */
module Trace {
  import opened Bits

  // ----- fixed-width numerals -----

  function Pow(base: nat, n: nat): (r: nat)
    ensures r >= 1 || base == 0
  {
    if n == 0 then 1 else base * Pow(base, n - 1)
  }

  /** The digit characters of bases up to 16, upper-case as `{:X}` writes them. */
  function DigitChar(d: nat): char
    requires d < 16
  {
    if d < 10 then ('0' as int + d) as char else ('A' as int + d - 10) as char
  }

  function DigitValue(c: char): nat
  {
    if '0' <= c <= '9' then c as int - '0' as int
    else if 'A' <= c <= 'F' then c as int - 'A' as int + 10
    else 0
  }

  lemma DigitValueOfChar(d: nat)
    requires d < 16
    ensures DigitValue(DigitChar(d)) == d
  {
  }

  /** The last `width` base-`base` digits of v, most significant first,
      padded with zeros (the `'032b'` and `'08X'` formats for values that
      fit the width). */
  function Numeral(v: int, base: nat, width: nat): (s: string)
    requires 2 <= base <= 16
    ensures |s| == width
    decreases width
  {
    if width == 0 then "" else Numeral(v / base, base, width - 1) + [DigitChar(v % base)]
  }

  /** Reading a numeral back, most significant digit first. */
  function NumeralValue(s: string, base: nat): nat
  {
    if s == [] then 0 else base * NumeralValue(s[..|s| - 1], base) + DigitValue(s[|s| - 1])
  }

  /** Every character of a numeral is a digit of its base. */
  lemma {:induction false} NumeralDigits(v: int, base: nat, width: nat)
    requires 2 <= base <= 16
    ensures forall i :: 0 <= i < width ==>
              DigitValue(Numeral(v, base, width)[i]) < base
              && Numeral(v, base, width)[i] == DigitChar(DigitValue(Numeral(v, base, width)[i]))
    decreases width
  {
    if width > 0 {
      NumeralDigits(v / base, base, width - 1);
      var s, prefix := Numeral(v, base, width), Numeral(v / base, base, width - 1);
      DigitValueOfChar(v % base);
      assert s == prefix + [DigitChar(v % base)];
      forall i | 0 <= i < width - 1
        ensures s[i] == prefix[i]
      {
      }
    }
  }

  /** Reading a numeral of width + 1 digits: the first width digits, then the last. */
  lemma NumeralValueStep(v: int, base: nat, width: nat)
    requires 2 <= base <= 16 && width > 0
    ensures NumeralValue(Numeral(v, base, width), base)
            == base * NumeralValue(Numeral(v / base, base, width - 1), base) + v % base
  {
    var s, prefix, d := Numeral(v, base, width), Numeral(v / base, base, width - 1), v % base;
    assert s[..width - 1] == prefix && s[width - 1] == DigitChar(d);
    DigitValueOfChar(d);
  }

  /** Reading a numeral gives back the value modulo base^width. */
  lemma {:induction false} NumeralRoundTrip(v: int, base: nat, width: nat)
    requires 2 <= base <= 16
    ensures NumeralValue(Numeral(v, base, width), base) == v % Pow(base, width)
    decreases width
  {
    if width > 0 {
      var p, q, d := Pow(base, width - 1), (v / base) % Pow(base, width - 1), v % base;
      var x, y := NumeralValue(Numeral(v, base, width), base), NumeralValue(Numeral(v / base, base, width - 1), base);
      assert x == base * y + d by {
        NumeralValueStep(v, base, width);
      }
      assert y == q by {
        NumeralRoundTrip(v / base, base, width - 1);
      }
      assert v % (base * p) == base * q + d by {
        SplitDigit(v, base, p);
      }
      assert Pow(base, width) == base * p;
    }
  }

  // ----- to_binary32 -----

  /** "0b" followed by the 32 binary digits of v mod 2^32. */
  function ToBinary32(v: int): (s: string)
    ensures |s| == 34 && s[..2] == "0b"
  {
    "0b" + Numeral(v % WordModulus, 2, 32)
  }

  /** The 32 digits are binary digits and read back as v mod 2^32, so two
      values print alike exactly when they agree mod 2^32. */
  lemma ToBinary32Value(v: int)
    ensures forall i :: 2 <= i < 34 ==> ToBinary32(v)[i] == '0' || ToBinary32(v)[i] == '1'
    ensures NumeralValue(ToBinary32(v)[2..], 2) == v % WordModulus
  {
    var digits := Numeral(v % WordModulus, 2, 32);
    var s := ToBinary32(v);
    assert s[2..] == digits;
    forall i | 2 <= i < 34
      ensures s[i] == '0' || s[i] == '1'
    {
      assert s[i] == digits[i - 2];
      NumeralDigits(v % WordModulus, 2, 32);
    }
    assert NumeralValue(digits, 2) == v % WordModulus by {
      NumeralRoundTrip(v % WordModulus, 2, 32);
      WordPowers();
      WordResidue(v % WordModulus);
    }
  }

  /** 2^32 and 16^8 are both the word modulus. */
  lemma WordPowers()
    ensures Pow(2, 32) == WordModulus && Pow(16, 8) == WordModulus
  {
    assert Pow(2, 8) == 0x100;
    assert Pow(2, 16) == 0x1_0000;
    assert Pow(2, 24) == 0x100_0000;
    assert Pow(16, 4) == 0x1_0000;
  }

  lemma ToBinary32Injective(a: Word, b: Word)
    requires ToBinary32(a) == ToBinary32(b)
    ensures a == b
  {
    var s := ToBinary32(a);
    ToBinary32Value(a);
    ToBinary32Value(b);
    WordResidue(a);
    WordResidue(b);
    assert a == NumeralValue(s[2..], 2) == b;
  }

  // ----- format_trace_line -----

  /** `" ".join(fields)`. */
  function Join(fields: seq<string>): string
  {
    if |fields| == 0 then ""
    else if |fields| == 1 then fields[0]
    else fields[0] + " " + Join(fields[1..])
  }

  /** pc then the registers, each as to_binary32, separated by single spaces. */
  function FormatTraceLine(pc: int, regs: seq<Word>): string
  {
    ToBinary32(pc) + " " + Join(seq(|regs|, i requires 0 <= i < |regs| => ToBinary32(regs[i])))
  }

  /** Joining 34-character fields puts field i at columns 35i .. 35i+33 and
      a space at column 35i+34 between fields. */
  lemma {:induction false} JoinLayout(fields: seq<string>)
    requires |fields| >= 1 && forall i :: 0 <= i < |fields| ==> |fields[i]| == 34
    ensures |Join(fields)| == 35 * |fields| - 1
    ensures forall i :: 0 <= i < |fields| ==> Join(fields)[35 * i .. 35 * i + 34] == fields[i]
    ensures forall i :: 0 <= i < |fields| - 1 ==> Join(fields)[35 * i + 34] == ' '
  {
    if |fields| > 1 {
      var rest := fields[1..];
      JoinLayout(rest);
      var j := Join(fields);
      assert j == fields[0] + " " + Join(rest);
      forall i | 0 <= i < |fields|
        ensures j[35 * i .. 35 * i + 34] == fields[i]
      {
        if i > 0 {
          assert j[35 * i .. 35 * i + 34] == Join(rest)[35 * (i - 1) .. 35 * (i - 1) + 34];
          assert rest[i - 1] == fields[i];
        }
      }
      forall i | 0 <= i < |fields| - 1
        ensures j[35 * i + 34] == ' '
      {
        if i > 0 {
          assert j[35 * i + 34] == Join(rest)[35 * (i - 1) + 34];
        }
      }
    }
  }

  /** A trace line of 32 registers has 33 fields of 34 characters separated
      by spaces: field 0 is pc and field i + 1 is register i, each reading
      back as its value mod 2^32. */
  lemma TraceLineLayout(pc: int, regs: seq<Word>)
    requires |regs| == 32
    ensures var line := FormatTraceLine(pc, regs);
            && |line| == 33 * 35 - 1
            && line[..34] == ToBinary32(pc)
            && (forall i :: 0 <= i < 32 ==> line[35 * (i + 1) .. 35 * (i + 1) + 34] == ToBinary32(regs[i]))
            && (forall i :: 0 <= i < 32 ==> line[35 * i + 34] == ' ')
  {
    var line := FormatTraceLine(pc, regs);
    var fields := seq(32, i requires 0 <= i < 32 => ToBinary32(regs[i]));
    var all := [ToBinary32(pc)] + fields;
    assert Join(all) == ToBinary32(pc) + " " + Join(fields);
    assert line == Join(all);
    JoinLayout(all);
    forall i | 0 <= i < 32
      ensures line[35 * (i + 1) .. 35 * (i + 1) + 34] == ToBinary32(regs[i])
    {
      assert all[i + 1] == fields[i];
    }
    assert all[0] == ToBinary32(pc);
  }

  // ----- format_memory_dump -----

  predicate StrictlyIncreasing(s: seq<int>)
  {
    forall i, j :: 0 <= i < j < |s| ==> s[i] < s[j]
  }

  predicate IsMinimum(m: int, s: set<Word>)
  {
    m in s && forall y :: y in s ==> m <= y
  }

  lemma {:induction false} MinimumExists(s: set<Word>)
    requires s != {}
    ensures exists m :: IsMinimum(m, s)
    decreases |s|
  {
    var x :| x in s;
    if s == {x} {
      assert IsMinimum(x, s);
    } else {
      MinimumExists(s - {x});
      var m :| IsMinimum(m, s - {x});
      var least := if x < m then x else m;
      forall y | y in s
        ensures least <= y
      {
        if y != x {
          assert y in s - {x};
        }
      }
      assert IsMinimum(least, s);
    }
  }

  /** `sorted(keys)`: the elements of a finite set of integers in ascending
      order, each once. */
  function SortedKeys(s: set<Word>): (keys: seq<Word>)
    ensures |keys| == |s| && StrictlyIncreasing(keys)
    ensures forall k :: k in keys <==> k in s
    decreases |s|
  {
    if s == {} then []
    else
      MinimumExists(s);
      var m :| IsMinimum(m, s);
      [m] + SortedKeys(s - {m})
  }

  /** The first key is the minimum, followed by the keys of the rest. */
  lemma SortedKeysHead(s: set<Word>)
    requires s != {}
    ensures IsMinimum(SortedKeys(s)[0], s)
    ensures SortedKeys(s) == [SortedKeys(s)[0]] + SortedKeys(s - {SortedKeys(s)[0]})
  {
  }

  /** The first element of an ascending enumeration of s is its minimum. */
  lemma EnumerationHead(s: set<Word>, keys: seq<Word>)
    requires StrictlyIncreasing(keys) && forall k :: k in keys <==> k in s
    requires keys != []
    ensures IsMinimum(keys[0], s)
  {
    forall y | y in s
      ensures keys[0] <= y
    {
      var j :| 0 <= j < |keys| && keys[j] == y;
    }
  }

  /** Dropping the first element enumerates the rest of the set. */
  lemma EnumerationTail(s: set<Word>, keys: seq<Word>)
    requires StrictlyIncreasing(keys) && forall k :: k in keys <==> k in s
    requires keys != []
    ensures StrictlyIncreasing(keys[1..])
    ensures forall k :: k in keys[1..] <==> k in s - {keys[0]}
  {
    var rest := keys[1..];
    forall k
      ensures k in rest <==> k in s - {keys[0]}
    {
      if k in rest {
        var j :| 0 <= j < |rest| && rest[j] == k;
        assert keys[j + 1] == k;
      }
      if k in s - {keys[0]} {
        var j :| 0 <= j < |keys| && keys[j] == k;
        assert rest[j - 1] == k;
      }
    }
  }

  /** A set has at most one minimum. */
  lemma MinimumUnique(a: int, b: int, s: set<Word>)
    requires IsMinimum(a, s) && IsMinimum(b, s)
    ensures a == b
  {
    assert a <= b && b <= a;
  }

  /** A non-empty sequence is its head followed by its tail. */
  lemma HeadTail<T>(keys: seq<T>, tail: seq<T>, sorted: seq<T>)
    requires keys != [] && keys[1..] == tail && sorted == [keys[0]] + tail
    ensures keys == sorted
  {
    assert keys == [keys[0]] + keys[1..];
  }

  /** A sequence that starts with the minimum and goes on with the sorted
      rest of the set is the sorted set. */
  lemma EnumerationStep(s: set<Word>, keys: seq<Word>)
    requires keys != [] && IsMinimum(keys[0], s) && keys[1..] == SortedKeys(s - {keys[0]})
    ensures keys == SortedKeys(s)
  {
    SortedKeysHead(s);
    MinimumUnique(keys[0], SortedKeys(s)[0], s);
    HeadTail(keys, SortedKeys(s - {keys[0]}), SortedKeys(s));
  }

  /** There is only one ascending enumeration of a set. */
  lemma {:induction false} SortedKeysUnique(s: set<Word>, keys: seq<Word>)
    requires StrictlyIncreasing(keys) && forall k :: k in keys <==> k in s
    ensures keys == SortedKeys(s)
    decreases |keys|
  {
    if keys == [] {
      assert s == {} by {
        forall k
          ensures k !in s
        {
          assert k !in keys;
        }
      }
    } else {
      EnumerationTail(s, keys);
      SortedKeysUnique(s - {keys[0]}, keys[1..]);
      EnumerationHead(s, keys);
      EnumerationStep(s, keys);
    }
  }

  /** The upper-case, zero-padded 8-digit hex of an address (`{:08X}`). */
  function Hex8(a: Word): (s: string)
    ensures |s| == 8
  {
    Numeral(a, 16, 8)
  }

  /** The hex field reads back as the address. */
  lemma Hex8Value(a: Word)
    ensures NumeralValue(Hex8(a), 16) == a
  {
    WordPowers();
    NumeralRoundTrip(a, 16, 8);
    WordResidue(a);
  }

  /** One dump line: "0x", the address in hex, a colon and the word in binary. */
  function DumpLine(a: Word, w: Word): (line: string)
    ensures |line| == 45
  {
    "0x" + Hex8(a) + ":" + ToBinary32(w)
  }

  /** Slicing a concatenation of four pieces. */
  lemma ConcatSlices<T>(a: seq<T>, b: seq<T>, c: seq<T>, d: seq<T>, k: nat)
    requires k <= |d|
    ensures (a + b + c + d)[..|a|] == a
    ensures (a + b + c + d)[|a|..|a| + |b|] == b
    ensures (a + b + c + d)[|a| + |b| + |c| + k..] == d[k..]
  {
    var line := a + b + c + d;
    assert line[..|a|] == a;
    assert line[|a|..|a| + |b|] == b;
    assert line[|a| + |b| + |c| + k..] == d[k..];
  }

  /** Where the fields of a dump line sit. */
  lemma DumpLineFields(a: Word, w: Word)
    ensures var line := DumpLine(a, w);
            && |line| == 45 && line[..2] == "0x" && line[10] == ':'
            && line[2..10] == Hex8(a) && line[11..] == ToBinary32(w)
  {
    ConcatSlices("0x", Hex8(a), ":", ToBinary32(w), 0);
  }

  /** What a reader sees in a 45-character dump line: "0x", eight upper-case
      hex digits reading as address a, ":", "0b" and 32 binary digits
      reading as word w. */
  predicate ShowsEntry(line: string, a: Word, w: Word)
  {
    && |line| == 45 && line[..2] == "0x" && line[10] == ':' && line[11..13] == "0b"
    && (forall i :: 2 <= i < 10 ==> DigitValue(line[i]) < 16 && line[i] == DigitChar(DigitValue(line[i])))
    && (forall i :: 13 <= i < 45 ==> line[i] == '0' || line[i] == '1')
    && NumeralValue(line[2..10], 16) == a
    && NumeralValue(line[13..], 2) == w
  }

  /** A dump line shows its address and word: every column is the expected
      literal or digit, and the two numerals read back as a and w. */
  lemma DumpLineReadsBack(a: Word, w: Word)
    ensures ShowsEntry(DumpLine(a, w), a, w)
  {
    var line, hex, bin := DumpLine(a, w), Hex8(a), ToBinary32(w);
    DumpLineFields(a, w);
    Hex8Value(a);
    ToBinary32Value(w);
    WordResidue(w);
    NumeralDigits(a, 16, 8);
    forall i | 2 <= i < 10
      ensures DigitValue(line[i]) < 16 && line[i] == DigitChar(DigitValue(line[i]))
    {
      assert line[i] == hex[i - 2];
    }
    forall i | 13 <= i < 45
      ensures line[i] == '0' || line[i] == '1'
    {
      assert line[i] == bin[i - 11];
    }
    assert line[11..13] == bin[..2];
    assert line[13..] == bin[2..];
  }

  /** A string of canonical base-`base` digits is the numeral of its own
      value. */
  lemma {:induction false} NumeralOfDigits(s: string, base: nat)
    requires 2 <= base <= 16
    requires forall i :: 0 <= i < |s| ==> DigitValue(s[i]) < base && s[i] == DigitChar(DigitValue(s[i]))
    ensures s == Numeral(NumeralValue(s, base), base, |s|)
    decreases |s|
  {
    if s != [] {
      var init, c := s[..|s| - 1], s[|s| - 1];
      var v := NumeralValue(s, base);
      assert forall i :: 0 <= i < |init| ==> init[i] == s[i];
      NumeralOfDigits(init, base);
      DivModUnique(v, base, NumeralValue(init, base), DigitValue(c));
      assert s == init + [c];
    }
  }

  /** The converse of DumpLineReadsBack: a line that shows address a and
      word w is exactly their dump line, so the format is unambiguous. */
  lemma DumpLineDetermined(line: string, a: Word, w: Word)
    requires ShowsEntry(line, a, w)
    ensures line == DumpLine(a, w)
  {
    var hex, bin := line[2..10], line[13..];
    forall i | 0 <= i < 8
      ensures DigitValue(hex[i]) < 16 && hex[i] == DigitChar(DigitValue(hex[i]))
    {
      assert hex[i] == line[i + 2];
    }
    forall i | 0 <= i < 32
      ensures DigitValue(bin[i]) < 2 && bin[i] == DigitChar(DigitValue(bin[i]))
    {
      assert bin[i] == line[i + 13];
    }
    NumeralOfDigits(hex, 16);
    NumeralOfDigits(bin, 2);
    WordResidue(w);
    assert hex == Hex8(a);
    assert line[11..] == ToBinary32(w) by {
      assert line[11..] == line[11..13] + bin;
    }
    assert line == line[..2] + hex + [line[10]] + line[11..];
  }


  /** One line per address in ascending order. */
  function FormatMemoryDump(mem: map<Word, Word>): (lines: seq<string>)
    ensures |lines| == |mem|
  {
    var keys := SortedKeys(mem.Keys);
    seq(|keys|, i requires 0 <= i < |keys| => DumpLine(keys[i], mem[keys[i]]))
  }

  /** `format_memory_dump` as the loop it is: the keys sorted once, then one
      line appended per key. */
  method DumpMemory(mem: map<Word, Word>) returns (lines: seq<string>)
    ensures lines == FormatMemoryDump(mem)
  {
    var keys := SortedKeys(mem.Keys);
    lines := [];
    for i := 0 to |keys|
      invariant lines == FormatMemoryDump(mem)[..i]
    {
      var line := DumpLine(keys[i], mem[keys[i]]);
      DumpPrefix(mem, i);
      lines := lines + [line];
    }
  }

  /** One more key's line extends a prefix of the dump. */
  lemma DumpPrefix(mem: map<Word, Word>, i: nat)
    requires i < |mem|
    ensures var keys := SortedKeys(mem.Keys);
            keys[i] in mem
            && FormatMemoryDump(mem)[..i + 1] == FormatMemoryDump(mem)[..i] + [DumpLine(keys[i], mem[keys[i]])]
  {
    var dump, keys := FormatMemoryDump(mem), SortedKeys(mem.Keys);
    PrefixStep(dump, i);
    assert dump[i] == DumpLine(keys[i], mem[keys[i]]);
  }

  lemma PrefixStep<T>(s: seq<T>, i: nat)
    requires i < |s|
    ensures s[..i + 1] == s[..i] + [s[i]]
  {
  }

  /** Each dump line shows one memory entry: line i shows key i and its
      word; the addresses strictly ascend and are exactly the memory's
      addresses. */
  lemma MemoryDumpReadsBack(mem: map<Word, Word>)
    ensures var lines, keys := FormatMemoryDump(mem), SortedKeys(mem.Keys);
            && StrictlyIncreasing(keys)
            && (forall k :: k in keys <==> k in mem)
            && forall i :: 0 <= i < |lines| ==>
                 keys[i] in mem && ShowsEntry(lines[i], keys[i], mem[keys[i]])
  {
    var lines, keys := FormatMemoryDump(mem), SortedKeys(mem.Keys);
    forall i | 0 <= i < |lines|
      ensures keys[i] in mem && ShowsEntry(lines[i], keys[i], mem[keys[i]])
    {
      assert keys[i] in mem;
      assert lines[i] == DumpLine(keys[i], mem[keys[i]]);
      DumpLineReadsBack(keys[i], mem[keys[i]]);
    }
  }
}
