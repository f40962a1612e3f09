/**
 The decoder's literal tables for the default distributions (section 3.1.1.3.2.2 of RFC 8878) are
 the tables that FSE builds for them: every cell has the next state, the extra bits, the bits and
 the base value that the spread of the distribution gives. The tables are compared by rows of eight
 cells; the walk over each table is followed four cells at a time, and the cells of each code that
 has more than one are listed.
 */
module DefaultTables {
  import opened Numeric
  import opened Distribution
  import opened FseTable
  import opened FseBuild
  import opened SeqValues
  import opened LayoutCheck
  import Sequences

  /** ZSTD_seqSymbol */
  datatype SeqSymbol = SeqSymbol(nextState: nat, nbAdditionalBits: nat, nbBits: nat, baseValue: int)

  // ----- base values and extra bits -----

  /** ZSTD_buildFSETable ends with these replacing the code. */
  function LLTable(cells: seq<DCell>): (table: seq<SeqSymbol>)
    requires forall u :: 0 <= u < |cells| ==> cells[u].symbol <= Sequences.MAX_LL
  {
    seq(|cells|, u requires 0 <= u < |cells| =>
      SeqSymbol(cells[u].newState, Sequences.LLBits(cells[u].symbol), cells[u].nbBits, LLBase(cells[u].symbol)))
  }

  function MLTable(cells: seq<DCell>): (table: seq<SeqSymbol>)
    requires forall u :: 0 <= u < |cells| ==> cells[u].symbol <= Sequences.MAX_ML
  {
    seq(|cells|, u requires 0 <= u < |cells| =>
      SeqSymbol(cells[u].newState, Sequences.MLBits(cells[u].symbol), cells[u].nbBits, MLBase(cells[u].symbol)))
  }

  function OFTable(cells: seq<DCell>): (table: seq<SeqSymbol>)
    requires forall u :: 0 <= u < |cells| ==> cells[u].symbol <= Sequences.MAX_OFF
  {
    seq(|cells|, u requires 0 <= u < |cells| =>
      SeqSymbol(cells[u].newState, cells[u].symbol, cells[u].nbBits, OFBase(cells[u].symbol)))
  }

  // ----- literal lengths -----

  /** LL_defaultNorm. */
  ghost predicate IsLLNorm(norm: seq<int>) {
    && |norm| == 36
    && Row(norm, 0, 4, 3, 2, 2, 2, 2, 2, 2)
    && Row(norm, 8, 2, 2, 2, 2, 2, 1, 1, 1)
    && Row(norm, 16, 2, 2, 2, 2, 2, 2, 2, 2)
    && Row(norm, 24, 2, 3, 2, 1, 1, 1, 1, 1)
    && Half(norm, 32, -1, -1, -1, -1)
  }

  /** The literal length codes over the cells. */
  ghost predicate IsLLCodes(t: seq<byte>) {
    && |t| == 64
    && Row(t, 0, 0, 0, 1, 3, 4, 6, 7, 9)
    && Row(t, 8, 10, 12, 14, 16, 18, 19, 21, 22)
    && Row(t, 16, 24, 25, 26, 27, 29, 31, 0, 1)
    && Row(t, 24, 2, 4, 5, 7, 8, 10, 11, 13)
    && Row(t, 32, 16, 17, 19, 20, 22, 23, 25, 25)
    && Row(t, 40, 26, 28, 30, 0, 1, 2, 3, 5)
    && Row(t, 48, 6, 8, 9, 11, 12, 15, 17, 18)
    && Row(t, 56, 20, 21, 23, 24, 35, 34, 33, 32)
  }

  function LLDefaultNorm(): (norm: seq<int>)
    ensures IsLLNorm(norm)
  {
    var a: seq<int> := [];
    var b := AppendRow(a, 4, 3, 2, 2, 2, 2, 2, 2);
    var c := AppendRow(b, 2, 2, 2, 2, 2, 1, 1, 1);
    var d := AppendRow(c, 2, 2, 2, 2, 2, 2, 2, 2);
    var e := AppendRow(d, 2, 3, 2, 1, 1, 1, 1, 1);
    e + [-1, -1, -1, -1]
  }

  lemma {:induction false} LLWalkHalf(t: seq<byte>, norm: seq<int>)
    requires IsLLNorm(norm) && IsLLCodes(t)
    ensures Arrives(t, norm, 64, 43, 60, Stage(32, 32, 15, 1))
  {
    Departs(t, norm, 64, 43, 60);
    Proceeds(t, norm, 36, 64, 43, 60, Stage(0, 0, 0, 0), Stage(44, 4, 0, 4));
    Proceeds(t, norm, 36, 64, 43, 60, Stage(44, 4, 0, 4), Stage(24, 8, 2, 1));
    Proceeds(t, norm, 36, 64, 43, 60, Stage(24, 8, 2, 1), Stage(4, 12, 4, 1));
    Proceeds(t, norm, 36, 64, 43, 60, Stage(4, 12, 4, 1), Stage(48, 16, 6, 1));
    Proceeds(t, norm, 36, 64, 43, 60, Stage(48, 16, 6, 1), Stage(28, 20, 8, 1));
    Proceeds(t, norm, 36, 64, 43, 60, Stage(28, 20, 8, 1), Stage(8, 24, 10, 1));
    Proceeds(t, norm, 36, 64, 43, 60, Stage(8, 24, 10, 1), Stage(52, 28, 12, 1));
    Proceeds(t, norm, 36, 64, 43, 60, Stage(52, 28, 12, 1), Stage(32, 32, 15, 1));
  }

  lemma {:induction false} LLWalk(t: seq<byte>, norm: seq<int>)
    requires IsLLNorm(norm) && IsLLCodes(t)
    ensures Arrives(t, norm, 64, 43, 60, Stage(0, 64, 31, 1))
  {
    LLWalkHalf(t, norm);
    Proceeds(t, norm, 36, 64, 43, 60, Stage(32, 32, 15, 1), Stage(12, 36, 17, 2));
    Proceeds(t, norm, 36, 64, 43, 60, Stage(12, 36, 17, 2), Stage(56, 40, 19, 2));
    Proceeds(t, norm, 36, 64, 43, 60, Stage(56, 40, 19, 2), Stage(36, 44, 21, 2));
    Proceeds(t, norm, 36, 64, 43, 60, Stage(36, 44, 21, 2), Stage(16, 48, 23, 2));
    Proceeds(t, norm, 36, 64, 43, 60, Stage(16, 48, 23, 2), Stage(60, 52, 25, 2));
    Proceeds(t, norm, 36, 64, 43, 60, Stage(60, 52, 25, 2), Stage(40, 56, 26, 1));
    Proceeds(t, norm, 36, 64, 43, 60, Stage(40, 56, 26, 1), Stage(20, 60, 28, 1));
    Proceeds(t, norm, 36, 64, 43, 60, Stage(20, 60, 28, 1), Stage(0, 64, 31, 1));
  }

  lemma {:induction false} LLWeight(norm: seq<int>)
    requires IsLLNorm(norm)
    ensures Normalized(norm, 6) && Pow2(6) == 64
  {
    WeightOfRow(norm, 0);
    assert Weight(norm, 8) == 19;
    WeightOfRow(norm, 8);
    assert Weight(norm, 16) == 32;
    WeightOfRow(norm, 16);
    assert Weight(norm, 24) == 48;
    WeightOfRow(norm, 24);
    assert Weight(norm, 32) == 60;
    WeightOfHalf(norm, 32);
  }

  lemma {:induction false} LLEnds(t: seq<byte>, norm: seq<int>)
    requires IsLLNorm(norm) && IsLLCodes(t)
    ensures LowFrom(norm, 32) && LastCells(t, 32, 36)
  {
  }

  lemma {:induction false} LLCodesExist() returns (t: seq<byte>)
    ensures IsLLCodes(t)
  {
    t := [];
    t := AppendRow(t, 0, 0, 1, 3, 4, 6, 7, 9);
    t := AppendRow(t, 10, 12, 14, 16, 18, 19, 21, 22);
    t := AppendRow(t, 24, 25, 26, 27, 29, 31, 0, 1);
    t := AppendRow(t, 2, 4, 5, 7, 8, 10, 11, 13);
    t := AppendRow(t, 16, 17, 19, 20, 22, 23, 25, 25);
    t := AppendRow(t, 26, 28, 30, 0, 1, 2, 3, 5);
    t := AppendRow(t, 6, 8, 9, 11, 12, 15, 17, 18);
    t := AppendRow(t, 20, 21, 23, 24, 35, 34, 33, 32);
  }

  /** LL_defaultDTable: next state, extra bits of the code, bits for the next state, base value. */
  ghost predicate IsLLTable(table: seq<SeqSymbol>) {
    && |table| == 64
    && Row(table, 0, SeqSymbol(0, 0, 4, 0), SeqSymbol(16, 0, 4, 0), SeqSymbol(32, 0, 5, 1), SeqSymbol(0, 0, 5, 3),
           SeqSymbol(0, 0, 5, 4), SeqSymbol(0, 0, 5, 6), SeqSymbol(0, 0, 5, 7), SeqSymbol(0, 0, 5, 9))
    && Row(table, 8, SeqSymbol(0, 0, 5, 10), SeqSymbol(0, 0, 5, 12), SeqSymbol(0, 0, 6, 14), SeqSymbol(0, 1, 5, 16),
           SeqSymbol(0, 1, 5, 20), SeqSymbol(0, 1, 5, 22), SeqSymbol(0, 2, 5, 28), SeqSymbol(0, 3, 5, 32))
    && Row(table, 16, SeqSymbol(0, 4, 5, 48), SeqSymbol(32, 6, 5, 64), SeqSymbol(0, 7, 5, 128), SeqSymbol(0, 8, 6, 256),
           SeqSymbol(0, 10, 6, 1024), SeqSymbol(0, 12, 6, 4096), SeqSymbol(32, 0, 4, 0), SeqSymbol(0, 0, 4, 1))
    && Row(table, 24, SeqSymbol(0, 0, 5, 2), SeqSymbol(32, 0, 5, 4), SeqSymbol(0, 0, 5, 5), SeqSymbol(32, 0, 5, 7),
           SeqSymbol(0, 0, 5, 8), SeqSymbol(32, 0, 5, 10), SeqSymbol(0, 0, 5, 11), SeqSymbol(0, 0, 6, 13))
    && Row(table, 32, SeqSymbol(32, 1, 5, 16), SeqSymbol(0, 1, 5, 18), SeqSymbol(32, 1, 5, 22), SeqSymbol(0, 2, 5, 24),
           SeqSymbol(32, 3, 5, 32), SeqSymbol(0, 3, 5, 40), SeqSymbol(0, 6, 4, 64), SeqSymbol(16, 6, 4, 64))
    && Row(table, 40, SeqSymbol(32, 7, 5, 128), SeqSymbol(0, 9, 6, 512), SeqSymbol(0, 11, 6, 2048), SeqSymbol(48, 0, 4, 0),
           SeqSymbol(16, 0, 4, 1), SeqSymbol(32, 0, 5, 2), SeqSymbol(32, 0, 5, 3), SeqSymbol(32, 0, 5, 5))
    && Row(table, 48, SeqSymbol(32, 0, 5, 6), SeqSymbol(32, 0, 5, 8), SeqSymbol(32, 0, 5, 9), SeqSymbol(32, 0, 5, 11),
           SeqSymbol(32, 0, 5, 12), SeqSymbol(0, 0, 6, 15), SeqSymbol(32, 1, 5, 18), SeqSymbol(32, 1, 5, 20))
    && Row(table, 56, SeqSymbol(32, 2, 5, 24), SeqSymbol(32, 2, 5, 28), SeqSymbol(32, 3, 5, 40), SeqSymbol(32, 4, 5, 48),
           SeqSymbol(0, 16, 6, 65536), SeqSymbol(0, 15, 6, 32768), SeqSymbol(0, 14, 6, 16384), SeqSymbol(0, 13, 6, 8192))
  }

  lemma {:induction false} LLCells(t: seq<byte>, norm: seq<int>, cells: seq<DCell>)
    requires IsLLNorm(norm) && IsLLCodes(t) && Decodes(t, norm, cells, 6)
    requires forall u :: 0 <= u < |cells| ==> cells[u].symbol <= Sequences.MAX_LL
    ensures IsLLTable(LLTable(cells))
  {
    Singles(t, norm, cells, 6);
    Four(t, norm, cells, 6, 0, 0, 1, 22, 43);
    Three(t, norm, cells, 6, 1, 2, 23, 44);
    Two(t, norm, cells, 6, 2, 24, 45);
    Two(t, norm, cells, 6, 3, 3, 46);
    Two(t, norm, cells, 6, 4, 4, 25);
    Two(t, norm, cells, 6, 5, 26, 47);
    Two(t, norm, cells, 6, 6, 5, 48);
    Two(t, norm, cells, 6, 7, 6, 27);
    Two(t, norm, cells, 6, 8, 28, 49);
    Two(t, norm, cells, 6, 9, 7, 50);
    Two(t, norm, cells, 6, 10, 8, 29);
    Two(t, norm, cells, 6, 11, 30, 51);
    Two(t, norm, cells, 6, 12, 9, 52);
    Two(t, norm, cells, 6, 16, 11, 32);
    Two(t, norm, cells, 6, 17, 33, 54);
    Two(t, norm, cells, 6, 18, 12, 55);
    Two(t, norm, cells, 6, 19, 13, 34);
    Two(t, norm, cells, 6, 20, 35, 56);
    Two(t, norm, cells, 6, 21, 14, 57);
    Two(t, norm, cells, 6, 22, 15, 36);
    Two(t, norm, cells, 6, 23, 37, 58);
    Two(t, norm, cells, 6, 24, 16, 59);
    Three(t, norm, cells, 6, 25, 17, 38, 39);
    Two(t, norm, cells, 6, 26, 18, 40);
  }

  /** Whatever decoding table is built from the default distribution is the literal one. */
  lemma {:induction false} LLDefault(dt: DTable, norm: seq<int>)
    requires IsLLNorm(norm) && DecodesWith(dt, norm, 6)
    ensures forall u :: 0 <= u < |dt.cells| ==> dt.cells[u].symbol <= Sequences.MAX_LL
    ensures IsLLTable(LLTable(dt.cells))
  {
    var t := LLCodesExist();
    LLWeight(norm);
    LLWalk(t, norm);
    LLEnds(t, norm);
    SpreadChecked(t, norm, 6, 32, 60, Stage(0, 64, 31, 1));
    DecodesAs(dt, t, norm, 6);
    LLCells(t, norm, dt.cells);
  }

  /** The table that FSE builds for the default distribution is the decoder's literal one. */
  method LLBuild() returns (table: seq<SeqSymbol>)
    ensures IsLLTable(table)
  {
    var norm := LLDefaultNorm();
    LLWeight(norm);
    var built := BuildDTable(norm, 6);
    LLDefault(built.value, norm);
    table := LLTable(built.value.cells);
  }

  // ----- offsets -----

  /** OF_defaultNorm. */
  ghost predicate IsOFNorm(norm: seq<int>) {
    && |norm| == 29
    && Row(norm, 0, 1, 1, 1, 1, 1, 1, 2, 2)
    && Row(norm, 8, 2, 1, 1, 1, 1, 1, 1, 1)
    && Row(norm, 16, 1, 1, 1, 1, 1, 1, 1, 1)
    && Half(norm, 24, -1, -1, -1, -1)
    && norm[28] == -1
  }

  /** The offset codes over the cells. */
  ghost predicate IsOFCodes(t: seq<byte>) {
    && |t| == 32
    && Row(t, 0, 0, 6, 9, 15, 21, 3, 7, 12)
    && Row(t, 8, 18, 23, 5, 8, 14, 20, 2, 7)
    && Row(t, 16, 11, 17, 22, 4, 8, 13, 19, 1)
    && Row(t, 24, 6, 10, 16, 28, 27, 26, 25, 24)
  }

  function OFDefaultNorm(): (norm: seq<int>)
    ensures IsOFNorm(norm)
  {
    var a: seq<int> := [];
    var b := AppendRow(a, 1, 1, 1, 1, 1, 1, 2, 2);
    var c := AppendRow(b, 2, 1, 1, 1, 1, 1, 1, 1);
    var d := AppendRow(c, 1, 1, 1, 1, 1, 1, 1, 1);
    d + [-1, -1, -1, -1, -1]
  }

  lemma {:induction false} OFWalk(t: seq<byte>, norm: seq<int>)
    requires IsOFNorm(norm) && IsOFCodes(t)
    ensures Arrives(t, norm, 32, 23, 27, Stage(0, 32, 23, 1))
  {
    Departs(t, norm, 32, 23, 27);
    Proceeds(t, norm, 29, 32, 23, 27, Stage(0, 0, 0, 0), Stage(28, 4, 3, 1));
    Proceeds(t, norm, 29, 32, 23, 27, Stage(28, 4, 3, 1), Stage(24, 8, 6, 1));
    Proceeds(t, norm, 29, 32, 23, 27, Stage(24, 8, 6, 1), Stage(20, 12, 7, 2));
    Proceeds(t, norm, 29, 32, 23, 27, Stage(20, 12, 7, 2), Stage(16, 16, 10, 1));
    Proceeds(t, norm, 29, 32, 23, 27, Stage(16, 16, 10, 1), Stage(12, 20, 13, 1));
    Proceeds(t, norm, 29, 32, 23, 27, Stage(12, 20, 13, 1), Stage(8, 24, 17, 1));
    Proceeds(t, norm, 29, 32, 23, 27, Stage(8, 24, 17, 1), Stage(4, 28, 20, 1));
    Proceeds(t, norm, 29, 32, 23, 27, Stage(4, 28, 20, 1), Stage(0, 32, 23, 1));
  }

  lemma {:induction false} OFWeight(norm: seq<int>)
    requires IsOFNorm(norm)
    ensures Normalized(norm, 5) && Pow2(5) == 32
  {
    WeightOfRow(norm, 0);
    assert Weight(norm, 8) == 10;
    WeightOfRow(norm, 8);
    assert Weight(norm, 16) == 19;
    WeightOfRow(norm, 16);
    assert Weight(norm, 24) == 27;
    WeightOfHalf(norm, 24);
  }

  lemma {:induction false} OFEnds(t: seq<byte>, norm: seq<int>)
    requires IsOFNorm(norm) && IsOFCodes(t)
    ensures LowFrom(norm, 24) && LastCells(t, 24, 29)
  {
  }

  lemma {:induction false} OFCodesExist() returns (t: seq<byte>)
    ensures IsOFCodes(t)
  {
    t := [];
    t := AppendRow(t, 0, 6, 9, 15, 21, 3, 7, 12);
    t := AppendRow(t, 18, 23, 5, 8, 14, 20, 2, 7);
    t := AppendRow(t, 11, 17, 22, 4, 8, 13, 19, 1);
    t := AppendRow(t, 6, 10, 16, 28, 27, 26, 25, 24);
  }

  /** OF_defaultDTable: next state, extra bits of the code, bits for the next state, base value. */
  ghost predicate IsOFTable(table: seq<SeqSymbol>) {
    && |table| == 32
    && Row(table, 0, SeqSymbol(0, 0, 5, 0), SeqSymbol(0, 6, 4, 61), SeqSymbol(0, 9, 5, 509), SeqSymbol(0, 15, 5, 32765),
           SeqSymbol(0, 21, 5, 2097149), SeqSymbol(0, 3, 5, 5), SeqSymbol(0, 7, 4, 125), SeqSymbol(0, 12, 5, 4093))
    && Row(table, 8, SeqSymbol(0, 18, 5, 262141), SeqSymbol(0, 23, 5, 8388605), SeqSymbol(0, 5, 5, 29), SeqSymbol(0, 8, 4, 253),
           SeqSymbol(0, 14, 5, 16381), SeqSymbol(0, 20, 5, 1048573), SeqSymbol(0, 2, 5, 1), SeqSymbol(16, 7, 4, 125))
    && Row(table, 16, SeqSymbol(0, 11, 5, 2045), SeqSymbol(0, 17, 5, 131069), SeqSymbol(0, 22, 5, 4194301), SeqSymbol(0, 4, 5, 13),
           SeqSymbol(16, 8, 4, 253), SeqSymbol(0, 13, 5, 8189), SeqSymbol(0, 19, 5, 524285), SeqSymbol(0, 1, 5, 1))
    && Row(table, 24, SeqSymbol(16, 6, 4, 61), SeqSymbol(0, 10, 5, 1021), SeqSymbol(0, 16, 5, 65533), SeqSymbol(0, 28, 5, 268435453),
           SeqSymbol(0, 27, 5, 134217725), SeqSymbol(0, 26, 5, 67108861), SeqSymbol(0, 25, 5, 33554429), SeqSymbol(0, 24, 5, 16777213))
  }

  lemma {:induction false} OFCells(t: seq<byte>, norm: seq<int>, cells: seq<DCell>)
    requires IsOFNorm(norm) && IsOFCodes(t) && Decodes(t, norm, cells, 5)
    requires forall u :: 0 <= u < |cells| ==> cells[u].symbol <= Sequences.MAX_OFF
    ensures IsOFTable(OFTable(cells))
  {
    Singles(t, norm, cells, 5);
    Two(t, norm, cells, 5, 6, 1, 24);
    Two(t, norm, cells, 5, 7, 6, 15);
    Two(t, norm, cells, 5, 8, 11, 20);
  }

  /** Whatever decoding table is built from the default distribution is the literal one. */
  lemma {:induction false} OFDefault(dt: DTable, norm: seq<int>)
    requires IsOFNorm(norm) && DecodesWith(dt, norm, 5)
    ensures forall u :: 0 <= u < |dt.cells| ==> dt.cells[u].symbol <= Sequences.MAX_OFF
    ensures IsOFTable(OFTable(dt.cells))
  {
    var t := OFCodesExist();
    OFWeight(norm);
    OFWalk(t, norm);
    OFEnds(t, norm);
    SpreadChecked(t, norm, 5, 24, 27, Stage(0, 32, 23, 1));
    DecodesAs(dt, t, norm, 5);
    OFCells(t, norm, dt.cells);
  }

  /** The table that FSE builds for the default distribution is the decoder's literal one. */
  method OFBuild() returns (table: seq<SeqSymbol>)
    ensures IsOFTable(table)
  {
    var norm := OFDefaultNorm();
    OFWeight(norm);
    var built := BuildDTable(norm, 5);
    OFDefault(built.value, norm);
    table := OFTable(built.value.cells);
  }

  // ----- match lengths -----

  /** ML_defaultNorm. */
  ghost predicate IsMLNorm(norm: seq<int>) {
    && |norm| == 53
    && Row(norm, 0, 1, 4, 3, 2, 2, 2, 2, 2)
    && Row(norm, 8, 2, 1, 1, 1, 1, 1, 1, 1)
    && Row(norm, 16, 1, 1, 1, 1, 1, 1, 1, 1)
    && Row(norm, 24, 1, 1, 1, 1, 1, 1, 1, 1)
    && Row(norm, 32, 1, 1, 1, 1, 1, 1, 1, 1)
    && Row(norm, 40, 1, 1, 1, 1, 1, 1, -1, -1)
    && Half(norm, 48, -1, -1, -1, -1)
    && norm[52] == -1
  }

  /** The match length codes over the cells. */
  ghost predicate IsMLCodes(t: seq<byte>) {
    && |t| == 64
    && Row(t, 0, 0, 1, 2, 3, 5, 6, 8, 10)
    && Row(t, 8, 13, 16, 19, 22, 25, 28, 31, 33)
    && Row(t, 16, 35, 37, 39, 41, 43, 45, 1, 2)
    && Row(t, 24, 3, 4, 6, 7, 9, 12, 15, 18)
    && Row(t, 32, 21, 24, 27, 30, 32, 34, 36, 38)
    && Row(t, 40, 40, 42, 44, 1, 1, 2, 4, 5)
    && Row(t, 48, 7, 8, 11, 14, 17, 20, 23, 26)
    && Row(t, 56, 29, 52, 51, 50, 49, 48, 47, 46)
  }

  function MLDefaultNorm(): (norm: seq<int>)
    ensures IsMLNorm(norm)
  {
    var a: seq<int> := [];
    var b := AppendRow(a, 1, 4, 3, 2, 2, 2, 2, 2);
    var c := AppendRow(b, 2, 1, 1, 1, 1, 1, 1, 1);
    var d := AppendRow(c, 1, 1, 1, 1, 1, 1, 1, 1);
    var e := AppendRow(d, 1, 1, 1, 1, 1, 1, 1, 1);
    var f := AppendRow(e, 1, 1, 1, 1, 1, 1, 1, 1);
    var g := AppendRow(f, 1, 1, 1, 1, 1, 1, -1, -1);
    g + [-1, -1, -1, -1, -1]
  }

  lemma {:induction false} MLWalkHalf(t: seq<byte>, norm: seq<int>)
    requires IsMLNorm(norm) && IsMLCodes(t)
    ensures Arrives(t, norm, 64, 43, 57, Stage(32, 32, 20, 1))
  {
    Departs(t, norm, 64, 43, 57);
    Proceeds(t, norm, 53, 64, 43, 57, Stage(0, 0, 0, 0), Stage(44, 4, 1, 3));
    Proceeds(t, norm, 53, 64, 43, 57, Stage(44, 4, 1, 3), Stage(24, 8, 2, 3));
    Proceeds(t, norm, 53, 64, 43, 57, Stage(24, 8, 2, 3), Stage(4, 12, 4, 2));
    Proceeds(t, norm, 53, 64, 43, 57, Stage(4, 12, 4, 2), Stage(48, 16, 6, 2));
    Proceeds(t, norm, 53, 64, 43, 57, Stage(48, 16, 6, 2), Stage(28, 20, 8, 2));
    Proceeds(t, norm, 53, 64, 43, 57, Stage(28, 20, 8, 2), Stage(8, 24, 12, 1));
    Proceeds(t, norm, 53, 64, 43, 57, Stage(8, 24, 12, 1), Stage(52, 28, 16, 1));
    Proceeds(t, norm, 53, 64, 43, 57, Stage(52, 28, 16, 1), Stage(32, 32, 20, 1));
  }

  lemma {:induction false} MLWalk(t: seq<byte>, norm: seq<int>)
    requires IsMLNorm(norm) && IsMLCodes(t)
    ensures Arrives(t, norm, 64, 43, 57, Stage(0, 64, 45, 1))
  {
    MLWalkHalf(t, norm);
    Proceeds(t, norm, 53, 64, 43, 57, Stage(32, 32, 20, 1), Stage(12, 36, 24, 1));
    Proceeds(t, norm, 53, 64, 43, 57, Stage(12, 36, 24, 1), Stage(56, 40, 28, 1));
    Proceeds(t, norm, 53, 64, 43, 57, Stage(56, 40, 28, 1), Stage(36, 44, 31, 1));
    Proceeds(t, norm, 53, 64, 43, 57, Stage(36, 44, 31, 1), Stage(16, 48, 34, 1));
    Proceeds(t, norm, 53, 64, 43, 57, Stage(16, 48, 34, 1), Stage(60, 52, 37, 1));
    Proceeds(t, norm, 53, 64, 43, 57, Stage(60, 52, 37, 1), Stage(40, 56, 39, 1));
    Proceeds(t, norm, 53, 64, 43, 57, Stage(40, 56, 39, 1), Stage(20, 60, 42, 1));
    Proceeds(t, norm, 53, 64, 43, 57, Stage(20, 60, 42, 1), Stage(0, 64, 45, 1));
  }

  lemma {:induction false} MLWeight(norm: seq<int>)
    requires IsMLNorm(norm)
    ensures Normalized(norm, 6) && Pow2(6) == 64
  {
    WeightOfRow(norm, 0);
    assert Weight(norm, 8) == 18;
    WeightOfRow(norm, 8);
    assert Weight(norm, 16) == 27;
    WeightOfRow(norm, 16);
    assert Weight(norm, 24) == 35;
    WeightOfRow(norm, 24);
    assert Weight(norm, 32) == 43;
    WeightOfRow(norm, 32);
    assert Weight(norm, 40) == 51;
    WeightOfRow(norm, 40);
    assert Weight(norm, 48) == 59;
    WeightOfHalf(norm, 48);
  }

  lemma {:induction false} MLEnds(t: seq<byte>, norm: seq<int>)
    requires IsMLNorm(norm) && IsMLCodes(t)
    ensures LowFrom(norm, 46) && LastCells(t, 46, 53)
  {
  }

  lemma {:induction false} MLCodesExist() returns (t: seq<byte>)
    ensures IsMLCodes(t)
  {
    t := [];
    t := AppendRow(t, 0, 1, 2, 3, 5, 6, 8, 10);
    t := AppendRow(t, 13, 16, 19, 22, 25, 28, 31, 33);
    t := AppendRow(t, 35, 37, 39, 41, 43, 45, 1, 2);
    t := AppendRow(t, 3, 4, 6, 7, 9, 12, 15, 18);
    t := AppendRow(t, 21, 24, 27, 30, 32, 34, 36, 38);
    t := AppendRow(t, 40, 42, 44, 1, 1, 2, 4, 5);
    t := AppendRow(t, 7, 8, 11, 14, 17, 20, 23, 26);
    t := AppendRow(t, 29, 52, 51, 50, 49, 48, 47, 46);
  }

  /** ML_defaultDTable: next state, extra bits of the code, bits for the next state, base value. */
  ghost predicate IsMLTable(table: seq<SeqSymbol>) {
    && |table| == 64
    && Row(table, 0, SeqSymbol(0, 0, 6, 3), SeqSymbol(0, 0, 4, 4), SeqSymbol(32, 0, 5, 5), SeqSymbol(0, 0, 5, 6),
           SeqSymbol(0, 0, 5, 8), SeqSymbol(0, 0, 5, 9), SeqSymbol(0, 0, 5, 11), SeqSymbol(0, 0, 6, 13))
    && Row(table, 8, SeqSymbol(0, 0, 6, 16), SeqSymbol(0, 0, 6, 19), SeqSymbol(0, 0, 6, 22), SeqSymbol(0, 0, 6, 25),
           SeqSymbol(0, 0, 6, 28), SeqSymbol(0, 0, 6, 31), SeqSymbol(0, 0, 6, 34), SeqSymbol(0, 1, 6, 37))
    && Row(table, 16, SeqSymbol(0, 1, 6, 41), SeqSymbol(0, 2, 6, 47), SeqSymbol(0, 3, 6, 59), SeqSymbol(0, 4, 6, 83),
           SeqSymbol(0, 7, 6, 131), SeqSymbol(0, 9, 6, 515), SeqSymbol(16, 0, 4, 4), SeqSymbol(0, 0, 4, 5))
    && Row(table, 24, SeqSymbol(32, 0, 5, 6), SeqSymbol(0, 0, 5, 7), SeqSymbol(32, 0, 5, 9), SeqSymbol(0, 0, 5, 10),
           SeqSymbol(0, 0, 6, 12), SeqSymbol(0, 0, 6, 15), SeqSymbol(0, 0, 6, 18), SeqSymbol(0, 0, 6, 21))
    && Row(table, 32, SeqSymbol(0, 0, 6, 24), SeqSymbol(0, 0, 6, 27), SeqSymbol(0, 0, 6, 30), SeqSymbol(0, 0, 6, 33),
           SeqSymbol(0, 1, 6, 35), SeqSymbol(0, 1, 6, 39), SeqSymbol(0, 2, 6, 43), SeqSymbol(0, 3, 6, 51))
    && Row(table, 40, SeqSymbol(0, 4, 6, 67), SeqSymbol(0, 5, 6, 99), SeqSymbol(0, 8, 6, 259), SeqSymbol(32, 0, 4, 4),
           SeqSymbol(48, 0, 4, 4), SeqSymbol(16, 0, 4, 5), SeqSymbol(32, 0, 5, 7), SeqSymbol(32, 0, 5, 8))
    && Row(table, 48, SeqSymbol(32, 0, 5, 10), SeqSymbol(32, 0, 5, 11), SeqSymbol(0, 0, 6, 14), SeqSymbol(0, 0, 6, 17),
           SeqSymbol(0, 0, 6, 20), SeqSymbol(0, 0, 6, 23), SeqSymbol(0, 0, 6, 26), SeqSymbol(0, 0, 6, 29))
    && Row(table, 56, SeqSymbol(0, 0, 6, 32), SeqSymbol(0, 16, 6, 65539), SeqSymbol(0, 15, 6, 32771), SeqSymbol(0, 14, 6, 16387),
           SeqSymbol(0, 13, 6, 8195), SeqSymbol(0, 12, 6, 4099), SeqSymbol(0, 11, 6, 2051), SeqSymbol(0, 10, 6, 1027))
  }

  lemma {:induction false} MLCells(t: seq<byte>, norm: seq<int>, cells: seq<DCell>)
    requires IsMLNorm(norm) && IsMLCodes(t) && Decodes(t, norm, cells, 6)
    requires forall u :: 0 <= u < |cells| ==> cells[u].symbol <= Sequences.MAX_ML
    ensures IsMLTable(MLTable(cells))
  {
    Singles(t, norm, cells, 6);
    Four(t, norm, cells, 6, 1, 1, 22, 43, 44);
    Three(t, norm, cells, 6, 2, 2, 23, 45);
    Two(t, norm, cells, 6, 3, 3, 24);
    Two(t, norm, cells, 6, 4, 25, 46);
    Two(t, norm, cells, 6, 5, 4, 47);
    Two(t, norm, cells, 6, 6, 5, 26);
    Two(t, norm, cells, 6, 7, 27, 48);
    Two(t, norm, cells, 6, 8, 6, 49);
  }

  /** Whatever decoding table is built from the default distribution is the literal one. */
  lemma {:induction false} MLDefault(dt: DTable, norm: seq<int>)
    requires IsMLNorm(norm) && DecodesWith(dt, norm, 6)
    ensures forall u :: 0 <= u < |dt.cells| ==> dt.cells[u].symbol <= Sequences.MAX_ML
    ensures IsMLTable(MLTable(dt.cells))
  {
    var t := MLCodesExist();
    MLWeight(norm);
    MLWalk(t, norm);
    MLEnds(t, norm);
    SpreadChecked(t, norm, 6, 46, 57, Stage(0, 64, 45, 1));
    DecodesAs(dt, t, norm, 6);
    MLCells(t, norm, dt.cells);
  }

  /** The table that FSE builds for the default distribution is the decoder's literal one. */
  method MLBuild() returns (table: seq<SeqSymbol>)
    ensures IsMLTable(table)
  {
    var norm := MLDefaultNorm();
    MLWeight(norm);
    var built := BuildDTable(norm, 6);
    MLDefault(built.value, norm);
    table := MLTable(built.value.cells);
  }
}
