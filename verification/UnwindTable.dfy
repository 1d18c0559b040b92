/** The unwind table: rows are added one by one and compressed on the fly (dwarf.cpp), and a
    binary search finds the row of a code address (codeCache.cpp). The plain list of rows is the
    reference: the rule of an address is that of the last row at or before it. */
module UnwindTable {

  import opened Words

  /** What a row says: the packed CFA register and offset, and where the frame pointer and the
      return address are. */
  datatype Rule = Rule(cfa: u32, fpOff: int32, pcOff: int32)

  datatype FrameDesc = FrameDesc(loc: u32, rule: Rule)

  /** cfa_off << 8 | cfa_reg & 0xff, in 32 bits. */
  function PackCfa(reg: u32, off: int32): (cfa: u32)
  {
    off % 0x100_0000 * 256 + reg % 256
  }

  function CfaReg(cfa: u32): nat {
    cfa % 256
  }

  /** The arithmetic shift of the 32-bit value by eight. */
  function CfaOff(cfa: u32): int {
    if cfa < 0x8000_0000 then cfa / 256 else cfa / 256 - 0x100_0000
  }

  /** Registers of 8 bits and offsets of 24 bits are unpacked exactly, and only those. */
  lemma UnpackCfa(reg: u32, off: int32)
    ensures reg <= 255 && -0x80_0000 <= off <= 0x7f_ffff
            <==> CfaReg(PackCfa(reg, off)) == reg && CfaOff(PackCfa(reg, off)) == off
  {
    var cfa, hi := PackCfa(reg, off), off % 0x100_0000;
    assert cfa / 256 == hi && cfa % 256 == reg % 256;
  }

  // ---------------------------------------------------------------------------------------
  // The reference
  // ---------------------------------------------------------------------------------------

  /** The rule of the last row at or before `pc`. */
  function RuleAt(rows: seq<FrameDesc>, pc: u32): Option<Rule> {
    if rows == [] then None
    else if rows[|rows| - 1].loc <= pc then Some(rows[|rows| - 1].rule)
    else RuleAt(rows[..|rows| - 1], pc)
  }

  predicate NonDecreasing(rows: seq<FrameDesc>) {
    forall i, j :: 0 <= i < j < |rows| ==> rows[i].loc <= rows[j].loc
  }

  predicate Increasing(rows: seq<FrameDesc>) {
    forall i, j :: 0 <= i < j < |rows| ==> rows[i].loc < rows[j].loc
  }

  // ---------------------------------------------------------------------------------------
  // Compression
  // ---------------------------------------------------------------------------------------

  /** What one added row does to the table: a row at the same location is replaced, one with an
      unchanged rule is dropped. */
  function Added(table: seq<FrameDesc>, row: FrameDesc): (t: seq<FrameDesc>)
    ensures |t| >= 1
  {
    var n := |table|;
    if n > 0 && table[n - 1].loc == row.loc then table[..n - 1] + [row]
    else if n > 0 && table[n - 1].rule == row.rule then table
    else table + [row]
  }

  function Compressed(rows: seq<FrameDesc>): (t: seq<FrameDesc>)
    ensures |t| == 0 <==> |rows| == 0
  {
    if rows == [] then [] else Added(Compressed(rows[..|rows| - 1]), rows[|rows| - 1])
  }

  /** No row repeats the rule of the row before it. */
  predicate NoRepeats(table: seq<FrameDesc>) {
    forall i :: 0 < i < |table| ==> table[i].rule != table[i - 1].rule
  }

  /** Rows at increasing locations leave no repetition behind: the table is as short as it can be with
      these answers. */
  lemma {:induction false} CompressedIsShort(rows: seq<FrameDesc>)
    requires Increasing(rows)
    ensures NoRepeats(Compressed(rows))
    ensures forall i :: 0 <= i < |Compressed(rows)| ==> Compressed(rows)[i] in rows
  {
    if rows != [] {
      CompressedIsShort(rows[..|rows| - 1]);
    }
  }

  lemma CompressedPush(rows: seq<FrameDesc>, row: FrameDesc)
    ensures Compressed(rows + [row]) == Added(Compressed(rows), row)
  {
    assert (rows + [row])[..|rows|] == rows;
  }

  lemma RuleAtPush(rows: seq<FrameDesc>, row: FrameDesc, pc: u32)
    ensures RuleAt(rows + [row], pc) == if row.loc <= pc then Some(row.rule) else RuleAt(rows, pc)
  {
    assert (rows + [row])[..|rows|] == rows;
  }

  /** Adding to the table has the same effect on every lookup as adding to the plain list. */
  lemma AddedRule(table: seq<FrameDesc>, row: FrameDesc, pc: u32)
    requires forall i :: 0 <= i < |table| ==> table[i].loc <= row.loc
    ensures RuleAt(Added(table, row), pc) == if row.loc <= pc then Some(row.rule) else RuleAt(table, pc)
  {
    var n := |table|;
    RuleAtPush(table, row, pc);
    if n > 0 {
      RuleAtPush(table[..n - 1], row, pc);
    }
  }

  lemma AddedIncreasing(table: seq<FrameDesc>, row: FrameDesc)
    requires Increasing(table) && forall i :: 0 <= i < |table| ==> table[i].loc <= row.loc
    ensures Increasing(Added(table, row))
    ensures forall i :: 0 <= i < |Added(table, row)| ==> Added(table, row)[i].loc <= row.loc
  {
  }

  /** For every non-decreasing sequence of rows: the compressed table is strictly increasing, is
      at or before the last row, and answers every lookup as the plain list does. */
  lemma {:induction false} CompressionKeepsRules(rows: seq<FrameDesc>)
    requires NonDecreasing(rows)
    ensures Increasing(Compressed(rows))
    ensures forall i :: 0 <= i < |Compressed(rows)| ==> Compressed(rows)[i].loc <= rows[|rows| - 1].loc
    ensures forall pc: u32 :: RuleAt(Compressed(rows), pc) == RuleAt(rows, pc)
  {
    if rows != [] {
      var front, row := rows[..|rows| - 1], rows[|rows| - 1];
      CompressionKeepsRules(front);
      var table := Compressed(front);
      forall i | 0 <= i < |table| ensures table[i].loc <= row.loc {
        assert front[|front| - 1].loc <= row.loc;
      }
      AddedIncreasing(table, row);
      hide Increasing, NonDecreasing, Added;
      forall pc: u32 ensures RuleAt(Compressed(rows), pc) == RuleAt(rows, pc) {
        AddedRule(table, row, pc);
        assert RuleAt(front, pc) == RuleAt(table, pc);
      }
    }
  }

  /** A lookup does not depend on rows after the address, and in an increasing table the row found
      is the one the search ends next to. */
  lemma {:induction false} RuleAtIndex(rows: seq<FrameDesc>, i: nat, pc: u32)
    requires i < |rows| && rows[i].loc <= pc && forall k :: i < k < |rows| ==> pc < rows[k].loc
    ensures RuleAt(rows, pc) == Some(rows[i].rule)
    decreases |rows|
  {
    if i < |rows| - 1 {
      RuleAtIndex(rows[..|rows| - 1], i, pc);
    }
  }

  lemma {:induction false} RuleAtNone(rows: seq<FrameDesc>, pc: u32)
    requires forall k :: 0 <= k < |rows| ==> pc < rows[k].loc
    ensures RuleAt(rows, pc) == None
    decreases |rows|
  {
    if rows != [] {
      RuleAtNone(rows[..|rows| - 1], pc);
    }
  }

  // ---------------------------------------------------------------------------------------
  // The table in memory
  // ---------------------------------------------------------------------------------------

  /** The `_table`, `_capacity`, `_count` and `_prev` of a parser; `_prev` is an index, or -1.
      `rows` is what has been added, uncompressed. */
  class FrameTable {
    var table: array<FrameDesc>
    var count: nat
    var prev: int
    ghost var rows: seq<FrameDesc>

    ghost predicate Valid()
      reads this, table
    {
      && 0 < table.Length && count <= table.Length
      && prev == count - 1
      && table[..count] == Compressed(rows)
    }

    constructor (capacity: nat)
      requires capacity > 0
      ensures Valid() && fresh(table) && rows == []
    {
      table := new FrameDesc[capacity](i => FrameDesc(0, Rule(0, 0, 0)));
      count, prev, rows := 0, -1, [];
    }

    /** addRecordRaw; the memory for a larger table is always there. */
    method AddRecordRaw(d: FrameDesc) returns (f: int)
      requires 0 < table.Length && count <= table.Length
      modifies this`table, this`count, table
      ensures table == old(table) || fresh(table)
      ensures 0 < table.Length && count <= table.Length && f == count - 1
      ensures table[..count] == old(table[..count]) + [d]
    {
      if count >= table.Length {
        var larger := new FrameDesc[table.Length * 2](i => d);
        var i := 0;
        while i < count
          invariant i <= count == old(count) <= table.Length && table == old(table) && 0 < table.Length
          invariant table[..] == old(table[..]) && count < larger.Length && fresh(larger)
          invariant larger[..i] == table[..i]
        {
          larger[i] := table[i];
          i := i + 1;
        }
        table := larger;
      }
      table[count] := d;
      count := count + 1;
      f := count - 1;
    }

    /** addRecord */
    method AddRecord(loc: u32, cfaReg: u32, cfaOff: int32, fpOff: int32, pcOff: int32)
      requires Valid()
      modifies this, table
      ensures Valid() && (table == old(table) || fresh(table))
      ensures rows == old(rows) + [FrameDesc(loc, Rule(PackCfa(cfaReg, cfaOff), fpOff, pcOff))]
    {
      var rule := Rule(PackCfa(cfaReg, cfaOff), fpOff, pcOff);
      var d := FrameDesc(loc, rule);
      ghost var before := table[..count];
      CompressedPush(rows, d);
      var same := prev != -1 && table[prev].loc == loc;
      if same {
        count := count - 1;
        assert table[..count] == before[..|before| - 1];
      }
      if prev == -1 || same || table[prev].rule.cfa != rule.cfa || table[prev].rule.fpOff != fpOff
         || table[prev].rule.pcOff != pcOff
      {
        prev := AddRecordRaw(d);
      }
      rows := rows + [d];
    }
  }

  // ---------------------------------------------------------------------------------------
  // Lookup
  // ---------------------------------------------------------------------------------------

  /** Where findFrameDesc points: a row of the table, or one of the two static descriptions. */
  datatype Found = InTable(desc: FrameDesc) | EmptyFrame | DefaultFrame

  /** findFrameDesc: the rule of the last row at or before the address; before the first row,
      the empty frame inside the PLT (by an unsigned comparison) and the default frame elsewhere. */
  method FindFrameDesc(table: array<FrameDesc>, length: nat, pc: nat, textBase: nat, pltOffset: u32, pltSize: u32)
      returns (found: Found)
    requires length <= table.Length && Increasing(table[..length])
    ensures var target: u32 := (pc - textBase) % U32;
            match RuleAt(table[..length], target)
            case Some(rule) => found.InTable? && found.desc.rule == rule && found.desc in table[..length]
                               && found.desc.loc <= target
            case None =>
              found == if (target - pltOffset) % U32 < pltSize then EmptyFrame else DefaultFrame
  {
    var target: u32 := (pc - textBase) % U32;
    ghost var rows := table[..length];
    var low, high := 0, length - 1;
    while low <= high
      invariant 0 <= low <= high + 1 <= length
      invariant forall k :: 0 <= k < low ==> rows[k].loc < target
      invariant forall k :: high < k < length ==> target < rows[k].loc
    {
      var mid := (low + high) / 2;
      assert rows[mid] == table[mid];
      if table[mid].loc < target {
        low := mid + 1;
      } else if table[mid].loc > target {
        high := mid - 1;
      } else {
        RuleAtIndex(rows, mid, target);
        return InTable(table[mid]);
      }
    }
    if low > 0 {
      assert rows[low - 1] == table[low - 1];
      RuleAtIndex(rows, low - 1, target);
      return InTable(table[low - 1]);
    }
    RuleAtNone(rows, target);
    if (target - pltOffset) % U32 < pltSize {
      return EmptyFrame;
    }
    return DefaultFrame;
  }

  // ---------------------------------------------------------------------------------------
  // Several functions
  // ---------------------------------------------------------------------------------------

  /** The rows of one function, and the range of code it covers. */
  datatype Fde = Fde(start: u32, end: u32, rows: seq<FrameDesc>)

  /** The rows begin at the start of the range and stay inside it. */
  predicate FdeOk(f: Fde) {
    && f.rows != [] && f.rows[0].loc == f.start < f.end && NonDecreasing(f.rows)
    && forall i :: 0 <= i < |f.rows| ==> f.rows[i].loc < f.end
  }

  /** Sorted, not overlapping. */
  predicate FdesOk(fdes: seq<Fde>) {
    && (forall i :: 0 <= i < |fdes| ==> FdeOk(fdes[i]))
    && (forall i, j :: 0 <= i < j < |fdes| ==> fdes[i].end <= fdes[j].start)
  }

  /** What the parser adds: the rows of each function, then the default rule at its end. */
  function AllRows(fdes: seq<Fde>, gap: Rule): seq<FrameDesc> {
    if fdes == [] then []
    else AllRows(fdes[..|fdes| - 1], gap) + fdes[|fdes| - 1].rows + [FrameDesc(fdes[|fdes| - 1].end, gap)]
  }

  /** The rule of an address by function: inside a function that of its own rows; after the first
      function but in none, the default rule. */
  function RuleByFde(fdes: seq<Fde>, gap: Rule, pc: u32): Option<Rule> {
    if fdes == [] then None
    else
      var f := fdes[|fdes| - 1];
      if f.end <= pc then Some(gap)
      else if f.start <= pc then RuleAt(f.rows, pc)
      else RuleByFde(fdes[..|fdes| - 1], gap, pc)
  }

  lemma {:induction false} RuleAtConcat(a: seq<FrameDesc>, b: seq<FrameDesc>, pc: u32)
    ensures RuleAt(a + b, pc) == if RuleAt(b, pc).Some? then RuleAt(b, pc) else RuleAt(a, pc)
    decreases |b|
  {
    if b == [] {
      assert a + b == a;
    } else {
      var front, row := b[..|b| - 1], b[|b| - 1];
      RuleAtConcat(a, front, pc);
      assert a + b == a + front + [row];
      RuleAtPush(a + front, row, pc);
    }
  }

  /** A row at or before the address means that something is found. */
  lemma {:induction false} RuleAtSome(rows: seq<FrameDesc>, i: nat, pc: u32)
    requires i < |rows| && rows[i].loc <= pc
    ensures RuleAt(rows, pc).Some?
    decreases |rows|
  {
    if i < |rows| - 1 {
      RuleAtSome(rows[..|rows| - 1], i, pc);
    }
  }

  lemma {:induction false} AllRowsBefore(fdes: seq<Fde>, gap: Rule, loc: u32)
    requires FdesOk(fdes) && forall i :: 0 <= i < |fdes| ==> fdes[i].end <= loc
    ensures NonDecreasing(AllRows(fdes, gap))
    ensures forall i :: 0 <= i < |AllRows(fdes, gap)| ==> AllRows(fdes, gap)[i].loc <= loc
  {
    if fdes != [] {
      var front, f := fdes[..|fdes| - 1], fdes[|fdes| - 1];
      AllRowsBefore(front, gap, f.start);
      var a := AllRows(front, gap);
      assert FdeOk(f);
      forall i | 0 <= i < |f.rows| ensures f.start <= f.rows[i].loc {
        if i > 0 {
          assert f.rows[0].loc <= f.rows[i].loc;
        }
      }
    }
  }

  /** The whole table, compressed and searched, gives every address the rule of its function. */
  lemma {:induction false} RulesByFunction(fdes: seq<Fde>, gap: Rule, pc: u32)
    requires FdesOk(fdes)
    ensures RuleAt(AllRows(fdes, gap), pc) == RuleByFde(fdes, gap, pc)
  {
    if fdes != [] {
      var front, f := fdes[..|fdes| - 1], fdes[|fdes| - 1];
      var a := AllRows(front, gap);
      RulesByFunction(front, gap, pc);
      RuleAtPush(a + f.rows, FrameDesc(f.end, gap), pc);
      RuleAtConcat(a, f.rows, pc);
      assert FdeOk(f);
      if f.start <= pc {
        RuleAtSome(f.rows, 0, pc);
      } else {
        forall i | 0 <= i < |f.rows| ensures pc < f.rows[i].loc {
          if i > 0 {
            assert f.rows[0].loc <= f.rows[i].loc;
          }
        }
        RuleAtNone(f.rows, pc);
      }
    }
  }

  lemma TableByFunction(fdes: seq<Fde>, gap: Rule, pc: u32)
    requires FdesOk(fdes)
    ensures Increasing(Compressed(AllRows(fdes, gap)))
    ensures RuleAt(Compressed(AllRows(fdes, gap)), pc) == RuleByFde(fdes, gap, pc)
  {
    var loc: u32 := U32 - 1;
    AllRowsBefore(fdes, gap, loc);
    CompressionKeepsRules(AllRows(fdes, gap));
    RulesByFunction(fdes, gap, pc);
  }
}
