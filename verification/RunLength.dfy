/** The initial run-length coding of deps/bzip2/bzlib.c. */
module RunLength {
  import opened Counting
  import opened Options

  // ----- the code

  datatype Run = Run(ch: byte, len: nat)

  function Copies(c: byte, n: nat): (r: seq<byte>)
    ensures |r| == n
  {
    seq(n, _ => c)
  }

  /** How a run is written: up to three bytes as they are, or four and a count. */
  function Pair(r: Run): seq<byte>
    requires 1 <= r.len <= 255
  {
    if r.len < 4 then Copies(r.ch, r.len) else Copies(r.ch, 4) + [r.len - 4]
  }

  /** A short run is followed by a different byte. */
  ghost predicate Separated(runs: seq<Run>) {
    && (forall i :: 0 <= i < |runs| ==> 1 <= runs[i].len <= 255)
    && (forall i, j :: 0 <= i && j == i + 1 && j < |runs| && runs[i].len < 4 ==> runs[i].ch != runs[j].ch)
  }

  ghost function Flat(runs: seq<Run>): seq<byte>
    requires forall i :: 0 <= i < |runs| ==> 1 <= runs[i].len <= 255
  {
    if runs == [] then [] else Pair(runs[0]) + Flat(runs[1..])
  }

  ghost function Text(runs: seq<Run>): seq<byte> {
    if runs == [] then [] else Copies(runs[0].ch, runs[0].len) + Text(runs[1..])
  }

  /** How often the first byte is repeated, counting no further than four. */
  function Lead(b: seq<byte>): (n: nat)
    requires b != []
    ensures 1 <= n <= 4 && n <= |b|
  {
    if |b| < 2 || b[1] != b[0] then 1
    else if |b| < 3 || b[2] != b[0] then 2
    else if |b| < 4 || b[3] != b[0] then 3
    else 4
  }

  /** What a block stands for; None when a count is missing at its end. */
  ghost function UnRle(b: seq<byte>): Option<seq<byte>>
    decreases |b|
  {
    if b == [] then Some([])
    else
      var n := Lead(b);
      if n < 4 then After(Copies(b[0], n), UnRle(b[n..]))
      else if |b| == 4 then None
      else After(Copies(b[0], Longer(b[4])), UnRle(b[5..]))
  }

  /** The length a count stands for. */
  function Longer(count: int): int { count + 4 }

  ghost function After(s: seq<byte>, t: Option<seq<byte>>): Option<seq<byte>> {
    match t
    case None => None
    case Some(u) => Some(s + u)
  }

  lemma AfterTwice(a: seq<byte>, b: seq<byte>, t: Option<seq<byte>>)
    ensures After(a, After(b, t)) == After(a + b, t) && After([], t) == t
  {
    if t.Some? {
      assert a + (b + t.value) == (a + b) + t.value;
      assert [] + t.value == t.value;
    }
  }

  /** Separated runs are read back. */
  lemma {:induction false} FlatBack(runs: seq<Run>)
    requires Separated(runs)
    ensures UnRle(Flat(runs)) == Some(Text(runs))
    decreases |runs|
  {
    if runs != [] {
      var r, more := runs[0], Flat(runs[1..]);
      TailSeparated(runs);
      FlatBack(runs[1..]);
      if |runs| > 1 { FlatHead(runs[1..]); }
      OneRunBack(r, more, if |runs| > 1 then runs[1].ch else 0);
    }
  }

  lemma TailSeparated(runs: seq<Run>)
    requires Separated(runs) && runs != []
    ensures Separated(runs[1..])
    ensures |runs| > 1 && runs[0].len < 4 ==> runs[0].ch != runs[1].ch
  {
    forall i, j | 0 <= i && j == i + 1 && j < |runs[1..]| && runs[1..][i].len < 4
      ensures runs[1..][i].ch != runs[1..][j].ch
    {
      assert runs[1..][i] == runs[i + 1] && runs[1..][j] == runs[j + 1];
    }
  }

  lemma {:induction false} FlatHead(runs: seq<Run>)
    requires runs != [] && forall i :: 0 <= i < |runs| ==> 1 <= runs[i].len <= 255
    ensures Flat(runs) != [] && Flat(runs)[0] == runs[0].ch
  {
  }

  /** One run in front of something that does not continue it. */
  lemma {:induction false} OneRunBack(r: Run, more: seq<byte>, next: byte)
    requires 1 <= r.len <= 255 && (more != [] ==> more[0] == next)
    requires r.len < 4 && more != [] ==> r.ch != next
    ensures UnRle(Pair(r) + more) == After(Copies(r.ch, r.len), UnRle(more))
  {
    var b := Pair(r) + more;
    if r.len < 4 {
      assert Lead(b) == r.len;
      assert b[r.len..] == more;
    } else {
      assert Lead(b) == 4;
      assert b[5..] == more;
    }
  }

  lemma {:induction false} FlatPush(runs: seq<Run>, r: Run)
    requires (forall i :: 0 <= i < |runs| ==> 1 <= runs[i].len <= 255) && 1 <= r.len <= 255
    ensures Flat(runs + [r]) == Flat(runs) + Pair(r) && Text(runs + [r]) == Text(runs) + Copies(r.ch, r.len)
    decreases |runs|
  {
    if runs == [] {
      assert runs + [r] == [r] && [r][1..] == [];
    } else {
      assert (runs + [r])[1..] == runs[1..] + [r];
      FlatPush(runs[1..], r);
    }
  }

  // ----- checksums

  /** BZ_UPDATE_CRC over a text, whatever the update is. */
  function CrcOver(update: (nat, byte) -> nat, crc: nat, s: seq<byte>): nat
    decreases |s|
  {
    if s == [] then crc else update(CrcOver(update, crc, s[..|s| - 1]), s[|s| - 1])
  }

  lemma {:induction false} CrcJoin(update: (nat, byte) -> nat, crc: nat, s: seq<byte>, t: seq<byte>)
    ensures CrcOver(update, crc, s + t) == CrcOver(update, CrcOver(update, crc, s), t)
    decreases |t|
  {
    if t == [] {
      assert s + t == s;
    } else {
      assert (s + t)[..|s + t| - 1] == s + t[..|t| - 1];
      CrcJoin(update, crc, s, t[..|t| - 1]);
    }
  }

  const NO_CHAR := 256

  /** The run-length part of EState. */
  class Encoder {
    const update: (nat, byte) -> nat
    const block: array<byte>
    const inUse: array<bool>
    var nblock: nat
    var stateInCh: int
    var stateInLen: nat
    var blockCRC: nat
    /** The runs written to the block. */
    ghost var runs: seq<Run>

    /** The block holds exactly the runs, and the marks and the CRC are theirs. */
    ghost predicate Holds()
      reads this`runs, this`nblock, this`blockCRC, block, inUse
    {
      && inUse.Length == 256 && nblock <= block.Length
      && Separated(runs) && block[..nblock] == Flat(runs)
      && blockCRC == CrcOver(update, 0xffff_ffff, Text(runs))
      && forall c :: 0 <= c < 256 ==> (inUse[c] <==> c in block[..nblock])
    }

    ghost predicate Valid()
      reads this, block, inUse
    {
      && Holds() && 0 <= stateInCh <= NO_CHAR && stateInLen <= 255 && (stateInCh < NO_CHAR <==> stateInLen >= 1)
      && (runs != [] && runs[|runs| - 1].len < 4 ==> runs[|runs| - 1].ch != stateInCh)
    }

    /** The text put into this block so far, the pending run included. */
    ghost function Contents(): seq<byte>
      requires Valid()
      reads this, block, inUse
    {
      Text(runs) + if stateInCh < NO_CHAR then Copies(stateInCh, stateInLen) else []
    }

    /** isempty_RL */
    predicate IsEmpty()
      reads this
    {
      !(stateInCh < NO_CHAR && stateInLen > 0)
    }

    /** init_RL and prepare_new_block. */
    constructor (capacity: nat, update: (nat, byte) -> nat)
      ensures Valid() && Contents() == [] && IsEmpty() && nblock == 0 && block.Length == capacity && this.update == update
      ensures fresh(block) && fresh(inUse)
    {
      this.update := update;
      block := new byte[capacity];
      inUse := new bool[256](_ => false);
      nblock, stateInCh, stateInLen, blockCRC, runs := 0, NO_CHAR, 0, 0xffff_ffff, [];
    }

    /** prepare_new_block, for the next block: the pending run stays. */
    method PrepareNewBlock()
      requires Valid()
      modifies this`nblock, this`blockCRC, this`runs, inUse
      ensures Valid() && nblock == 0 && runs == []
    {
      nblock, blockCRC, runs := 0, 0xffff_ffff, [];
      for i := 0 to 256
        invariant forall c :: 0 <= c < i ==> !inUse[c]
        modifies inUse
      {
        inUse[i] := false;
      }
    }

    /** One byte into the block. */
    method Store(c: byte)
      requires nblock < block.Length && inUse.Length == 256
      modifies this`nblock, block
      ensures nblock == old(nblock) + 1 && block[..nblock] == old(block[..nblock]) + [c]
    {
      block[nblock] := c;
      nblock := nblock + 1;
    }

    /** The bytes of a run, without its CRC. */
    method StoreRun(r: Run)
      requires 1 <= r.len <= 255 && nblock + 5 <= block.Length && inUse.Length == 256
      requires forall c :: 0 <= c < 256 ==> (inUse[c] <==> c in block[..nblock])
      modifies this`nblock, block, inUse
      ensures nblock <= old(nblock) + 5 && nblock <= block.Length && block[..nblock] == old(block[..nblock]) + Pair(r)
      ensures forall c :: 0 <= c < 256 ==> (inUse[c] <==> c in block[..nblock])
    {
      ghost var b := block[..nblock];
      inUse[r.ch] := true;
      if r.len >= 4 { inUse[r.len - 4] := true; }
      var n := if r.len < 4 then r.len else 4;
      for i := 0 to n
        invariant nblock == old(nblock) + i && block[..nblock] == b + Copies(r.ch, i)
        modifies this`nblock, block
      {
        Store(r.ch);
        assert Copies(r.ch, i + 1) == Copies(r.ch, i) + [r.ch];
      }
      if r.len >= 4 { Store(r.len - 4); }
      assert block[..nblock] == b + Pair(r);
      MarksRight(b, r);
    }

    lemma MarksRight(b: seq<byte>, r: Run)
      requires 1 <= r.len <= 255
      ensures forall c :: c in b + Pair(r) <==> c in b || c == r.ch || (r.len >= 4 && c == r.len - 4)
    {
      assert Pair(r)[0] == r.ch;
      assert r.len >= 4 ==> Pair(r)[4] == r.len - 4;
    }

    /** add_pair_to_block */
    method AddPair()
      requires Valid() && stateInCh < NO_CHAR && nblock + 5 <= block.Length
      modifies this`nblock, this`blockCRC, this`runs, block, inUse
      ensures Holds() && nblock <= old(nblock) + 5
      ensures runs == old(runs) + [Run(stateInCh, stateInLen)]
    {
      hide Flat, Text, Pair, CrcOver;
      var ch: byte := stateInCh;
      ghost var r := Run(ch, stateInLen);
      FlatPush(runs, r);
      CrcJoin(update, 0xffff_ffff, Text(runs), Copies(ch, stateInLen));
      CrcNone(blockCRC);
      for i := 0 to stateInLen
        invariant blockCRC == CrcOver(update, old(blockCRC), Copies(ch, i))
        invariant inUse[..] == old(inUse[..]) && block[..nblock] == old(block[..nblock])
        modifies this`blockCRC
      {
        CrcStep(old(blockCRC), ch, i);
        blockCRC := update(blockCRC, ch);
      }
      StoreRun(Run(ch, stateInLen));
      runs := runs + [r];
    }

    lemma {:induction false} CrcNone(crc: nat)
      ensures CrcOver(update, crc, []) == crc
    {
    }

    lemma {:induction false} CrcStep(crc: nat, c: byte, i: nat)
      ensures CrcOver(update, crc, Copies(c, i + 1)) == update(CrcOver(update, crc, Copies(c, i)), c)
    {
      assert Copies(c, i + 1)[..i] == Copies(c, i);
    }

    /** ADD_CHAR_TO_BLOCK. Once the pending run has been flushed, the next byte belongs to a new block. */
    method AddChar(c: byte)
      requires Valid() && nblock + 5 <= block.Length && (IsEmpty() ==> nblock == 0)
      modifies this, block, inUse
      ensures Valid() && nblock <= old(nblock) + 5 && Contents() == old(Contents()) + [c] && !IsEmpty()
    {
      hide Flat, Text, Pair, CrcOver;
      ghost var t := Contents();
      if c != stateInCh && stateInLen == 1 {
        AddSingle(c);
      } else if c != stateInCh || stateInLen == 255 {
        if stateInCh < NO_CHAR {
          FlatPush(runs, Run(stateInCh, stateInLen));
          AddPair();
          assert runs[|runs| - 1].ch == old(stateInCh) && runs[|runs| - 1].len == old(stateInLen);
        } else {
          if runs != [] { FlatHead(runs); }
          assert block[..0] == [];
        }
        stateInCh := c;
        stateInLen := 1;
        assert Contents() == t + [c];
      } else {
        assert Copies(c, stateInLen + 1) == Copies(c, stateInLen) + [c];
        stateInLen := stateInLen + 1;
        assert Contents() == t + [c];
      }
    }

    /** The fast track: a single byte goes straight into the block. */
    method AddSingle(c: byte)
      requires Valid() && nblock + 5 <= block.Length && c != stateInCh && stateInLen == 1
      modifies this, block, inUse
      ensures Valid() && nblock <= old(nblock) + 5 && Contents() == old(Contents()) + [c] && !IsEmpty()
    {
      hide Flat, Text, CrcOver;
      ghost var t := Contents();
      var ch: byte := stateInCh;
      ghost var r := Run(ch, 1);
      FlatPush(runs, r);
      CrcJoin(update, 0xffff_ffff, Text(runs), Copies(ch, 1));
      CrcStep(blockCRC, ch, 0);
      CrcNone(blockCRC);
      assert Copies(ch, 0) == [] && Copies(ch, 1) == [ch] == Pair(r);
      blockCRC := update(blockCRC, ch);
      inUse[stateInCh] := true;
      ghost var b := block[..nblock];
      Store(ch);
      MarksRight(b, r);
      runs := runs + [r];
      stateInCh := c;
      assert Contents() == t + [c];
    }

    /** flush_RL */
    method FlushRL()
      requires Valid() && nblock + 5 <= block.Length
      modifies this, block, inUse
      ensures Valid() && nblock <= old(nblock) + 5 && IsEmpty() && Contents() == old(Contents())
      ensures UnRle(block[..nblock]) == Some(Contents()) && blockCRC == CrcOver(update, 0xffff_ffff, Contents())
    {
      hide Flat, Text, Pair, CrcOver, UnRle;
      ghost var t := Contents();
      if stateInCh < NO_CHAR {
        FlatPush(runs, Run(stateInCh, stateInLen));
        AddPair();
      }
      stateInCh := NO_CHAR;
      stateInLen := 0;
      FlatBack(runs);
      assert Contents() == Text(runs) + [] == Text(runs);
    }

    /** Between runs, the block stands for everything but the pending run. */
    lemma Decodes()
      requires Valid()
      ensures UnRle(block[..nblock]) == Some(Text(runs)) && blockCRC == CrcOver(update, 0xffff_ffff, Text(runs))
    {
      FlatBack(runs);
    }
  }

  // ----- the decoder

  /** A run of fewer than four bytes at `i`. */
  lemma {:induction false} ShortRun(bytes: seq<byte>, n: nat, i: nat, m: nat)
    requires i < n <= |bytes| && 1 <= m <= 3 && i + m <= n
    requires forall k :: i <= k < i + m ==> bytes[k] == bytes[i]
    requires i + m == n || bytes[i + m] != bytes[i]
    ensures UnRle(bytes[i..n]) == After(Copies(bytes[i], m), UnRle(bytes[i + m..n]))
  {
    var r := bytes[i..n];
    assert forall k :: 0 <= k < |r| ==> r[k] == bytes[i + k];
    assert m > 1 ==> bytes[i + 1] == bytes[i];
    assert m > 2 ==> bytes[i + 2] == bytes[i];
    assert Lead(r) == m;
    assert r[m..] == bytes[i + m..n];
  }

  /** Four equal bytes at `i`. */
  lemma {:induction false} LongRun(bytes: seq<byte>, n: nat, i: nat)
    requires i + 4 <= n <= |bytes|
    requires bytes[i + 1] == bytes[i] && bytes[i + 2] == bytes[i] && bytes[i + 3] == bytes[i]
    ensures i + 4 == n ==> UnRle(bytes[i..n]) == None
    ensures i + 4 < n ==> UnRle(bytes[i..n]) == After(Copies(bytes[i], Longer(bytes[i + 4])), UnRle(bytes[i + 5..n]))
  {
    var r := bytes[i..n];
    assert forall k :: 0 <= k < |r| ==> r[k] == bytes[i + k];
    assert Lead(r) == 4;
    if i + 4 < n { assert r[5..] == bytes[i + 5..n]; }
  }

  /** The run-length part of DState. `bytes` is what BZ_GET_FAST delivers: the block, and what the walk makes of
      being followed beyond its end. */
  class Decoder {
    const update: (nat, byte) -> nat
    const bytes: seq<byte>
    const saveNblock: nat
    var outLen: nat
    var outCh: byte
    var used: nat
    var k0: byte
    var calculatedBlockCRC: nat
    /** Everything written out so far. */
    var output: seq<byte>

    ghost function Block(): seq<byte>
      requires saveNblock <= |bytes|
    {
      bytes[..saveNblock]
    }

    ghost predicate Valid()
      reads this
    {
      && 1 <= saveNblock && saveNblock + 2 <= |bytes| && 1 <= used <= saveNblock + 2
      && calculatedBlockCRC == CrcOver(update, 0xffff_ffff, output)
      && (used <= saveNblock ==> k0 == bytes[used - 1])
      && (used <= saveNblock + 1 ==>
            UnRle(Block()) == After(output + Copies(outCh, outLen), UnRle(bytes[used - 1..saveNblock])))
      && (used > saveNblock + 1 ==> UnRle(Block()) == None)
      && |output| + outLen <= 259 * used
    }

    /** What BZ2_decompress leaves behind for a block of at least one byte. */
    constructor (bytes: seq<byte>, saveNblock: nat, update: (nat, byte) -> nat)
      requires 1 <= saveNblock && saveNblock + 2 <= |bytes|
      ensures Valid() && output == [] && !Finished()
      ensures this.bytes == bytes && this.saveNblock == saveNblock && this.update == update
    {
      this.bytes, this.saveNblock, this.update := bytes, saveNblock, update;
      outLen, outCh, used, k0, calculatedBlockCRC, output := 0, 0, 1, bytes[0], 0xffff_ffff, [];
      new;
      assert bytes[0..saveNblock] == Block();
      AfterTwice([], [], UnRle(Block()));
      assert output + Copies(outCh, outLen) == [];
    }

    /** BZ2_bzDecompress's test for the end of a block. */
    predicate Finished()
      reads this
    {
      used == saveNblock + 1 && outLen == 0
    }

    method Emit()
      requires Valid() && outLen > 0
      modifies this`output, this`outLen, this`calculatedBlockCRC
      ensures Valid() && outLen == old(outLen) - 1 && output == old(output) + [outCh]
    {
      hide UnRle;
      assert (output + [outCh]) + Copies(outCh, outLen - 1) == output + Copies(outCh, outLen);
      assert (output + [outCh])[..|output|] == output;
      output := output + [outCh];
      calculatedBlockCRC := update(calculatedBlockCRC, outCh);
      outLen := outLen - 1;
    }

    /** Finishing the current run as far as there is space; its last byte is handled apart. */
    method Drain(availOut: nat) returns (avail: nat, done: bool)
      requires Valid() && outLen > 0
      modifies this`output, this`outLen, this`calculatedBlockCRC
      ensures Valid() && (done <==> outLen == 0) && (!done ==> avail == 0)
      ensures avail <= availOut && old(output) <= output && |output| == |old(output)| + (availOut - avail)
    {
      hide UnRle;
      avail := availOut;
      while true
        invariant Valid() && outLen > 0 && avail <= availOut
        invariant old(output) <= output && |output| == |old(output)| + (availOut - avail)
        decreases outLen
      {
        if avail == 0 { return avail, false; }
        if outLen == 1 { break; }
        Emit();
        avail := avail - 1;
      }
      Emit();
      avail := avail - 1;
      done := true;
    }

    /** Reading the next run: up to four equal bytes, and a count after the fourth. */
    method StartRun()
      requires Valid() && outLen == 0 && used <= saveNblock
      modifies this`outLen, this`outCh, this`used, this`k0
      ensures Valid() && outLen > 0 && used > old(used)
    {
      hide UnRle;
      var n := saveNblock;
      ghost var i, t := used - 1, UnRle(Block());
      assert output + Copies(outCh, 0) == output;
      outCh := k0;
      outLen := 1;
      var k1 := bytes[used];
      used := used + 1;
      if k1 != k0 {
        k0 := k1;
        ShortRun(bytes, n, i, 1);
        AfterTwice(output, Copies(outCh, 1), UnRle(bytes[i + 1..n]));
        return;
      }
      if used == n + 1 {
        ShortRun(bytes, n, i, 1);
        AfterTwice(output, Copies(outCh, 1), UnRle(bytes[i + 1..n]));
        return;
      }
      outLen := 2;
      k1 := bytes[used];
      used := used + 1;
      if used == n + 1 || k1 != k0 {
        if used != n + 1 { k0 := k1; }
        ShortRun(bytes, n, i, 2);
        AfterTwice(output, Copies(outCh, 2), UnRle(bytes[i + 2..n]));
        return;
      }
      outLen := 3;
      k1 := bytes[used];
      used := used + 1;
      if used == n + 1 || k1 != k0 {
        if used != n + 1 { k0 := k1; }
        ShortRun(bytes, n, i, 3);
        AfterTwice(output, Copies(outCh, 3), UnRle(bytes[i + 3..n]));
        return;
      }
      LongRun(bytes, n, i);
      k1 := bytes[used];
      used := used + 1;
      outLen := Longer(k1);
      k0 := bytes[used];
      used := used + 1;
      if i + 4 < n { AfterTwice(output, Copies(outCh, outLen), UnRle(bytes[i + 5..n])); }
    }

    /** unRLE_obuf_to_output_FAST, not randomised, with `availOut` bytes of space. */
    method Produce(availOut: nat) returns (corrupt: bool)
      requires Valid()
      modifies this
      ensures Valid() && old(output) <= output && |output| <= |old(output)| + availOut
      ensures corrupt ==> UnRle(Block()) == None
      ensures !corrupt ==> |output| == |old(output)| + availOut || Finished()
    {
      hide UnRle;
      var avail := availOut;
      while true
        invariant Valid() && old(output) <= output && |output| == |old(output)| + (availOut - avail)
        invariant 0 <= avail <= availOut
        decreases saveNblock + 2 - used
      {
        if outLen > 0 {
          var done;
          avail, done := Drain(avail);
          if !done { return false; }
        }
        if used > saveNblock + 1 { return true; }
        if used == saveNblock + 1 { return false; }
        StartRun();
      }
    }

    /** What has been written is a beginning of the text, and all of it only at the end of the block. */
    lemma SoFar()
      requires Valid()
      ensures UnRle(Block()).Some? ==> output <= UnRle(Block()).value && (output == UnRle(Block()).value ==> Finished())
    {
      if UnRle(Block()).Some? {
        var rest := bytes[used - 1..saveNblock];
        assert UnRle(rest).Some? && UnRle(Block()).value == output + (Copies(outCh, outLen) + UnRle(rest).value) by {
          hide UnRle;
          if UnRle(rest).Some? {
            assert (output + Copies(outCh, outLen)) + UnRle(rest).value == output + (Copies(outCh, outLen) + UnRle(rest).value);
          }
        }
        if rest != [] { SomeText(rest); }
      }
    }

    /** At the end of a block, exactly its text has been written, and the CRCs agree. */
    lemma AllOut()
      requires Valid() && Finished()
      ensures UnRle(Block()) == Some(output) && calculatedBlockCRC == CrcOver(update, 0xffff_ffff, output)
    {
      assert bytes[used - 1..saveNblock] == [];
      assert output + Copies(outCh, 0) == output && output + [] == output;
    }
  }

  /** What a block that is not empty stands for is not empty. */
  lemma {:induction false} SomeText(b: seq<byte>)
    requires b != [] && UnRle(b).Some?
    ensures UnRle(b).value != []
  {
  }

  /** Decoding a block, with the output space given out in any pieces. If the block stands for a text, what comes out
      is always a beginning of that text, no corruption is reported, and enough space brings out all of it, whatever
      the pieces; the CRC is the one of what came out. Otherwise enough space brings out the corruption. */
  method DecodeBlock(bytes: seq<byte>, saveNblock: nat, update: (nat, byte) -> nat, spaces: seq<nat>)
    returns (corrupt: bool, finished: bool, output: seq<byte>, crc: nat)
    requires 1 <= saveNblock && saveNblock + 2 <= |bytes|
    ensures crc == CrcOver(update, 0xffff_ffff, output)
    ensures finished ==> !corrupt && UnRle(bytes[..saveNblock]) == Some(output)
    ensures corrupt ==> UnRle(bytes[..saveNblock]) == None
    ensures UnRle(bytes[..saveNblock]).Some? ==> output <= UnRle(bytes[..saveNblock]).value
    ensures UnRle(bytes[..saveNblock]).Some? && Space(spaces, |spaces|) >= |UnRle(bytes[..saveNblock]).value| ==>
      finished && output == UnRle(bytes[..saveNblock]).value
    ensures |output| <= Space(spaces, |spaces|)
    ensures !corrupt && !finished ==> |output| == Space(spaces, |spaces|) <= 259 * (saveNblock + 2)
  {
    hide UnRle;
    var d := new Decoder(bytes, saveNblock, update);
    corrupt := false;
    var k := 0;
    while k < |spaces| && !corrupt && !d.Finished()
      invariant 0 <= k <= |spaces| && d.Valid() && fresh(d)
      invariant d.bytes == bytes && d.saveNblock == saveNblock && d.update == update
      invariant corrupt ==> UnRle(d.Block()) == None
      invariant |d.output| <= Space(spaces, k) && (!corrupt && !d.Finished() ==> |d.output| == Space(spaces, k))
      decreases |spaces| - k, !corrupt
    {
      corrupt := d.Produce(spaces[k]);
      k := k + 1;
    }
    finished := d.Finished();
    SpaceMore(spaces, k, |spaces|);
    d.SoFar();
    if finished { d.AllOut(); }
    output, crc := d.output, d.calculatedBlockCRC;
  }

  ghost function Space(spaces: seq<nat>, k: nat): nat
    requires k <= |spaces|
  {
    if k == 0 then 0 else Space(spaces, k - 1) + spaces[k - 1]
  }

  lemma {:induction false} SpaceMore(spaces: seq<nat>, j: nat, k: nat)
    requires j <= k <= |spaces|
    ensures Space(spaces, j) <= Space(spaces, k)
    decreases k
  {
    if j < k { SpaceMore(spaces, j, k - 1); }
  }

  /** A text that fits a block, there and back, whatever the output space is cut into: it comes out whole if there is
      enough space, and otherwise as far as the space goes; corruption is never reported, and the CRC of the whole is
      the one the encoder made. */
  method RoundTrip(text: seq<byte>, capacity: nat, update: (nat, byte) -> nat, over: seq<byte>, spaces: seq<nat>)
    returns (corrupt: bool, finished: bool, output: seq<byte>, crc: nat, encoded: nat)
    requires text != [] && capacity >= 5 * |text| + 5 && |over| == 2
    ensures !corrupt && output <= text && encoded == CrcOver(update, 0xffff_ffff, text)
    ensures finished <==> Space(spaces, |spaces|) >= |text|
    ensures finished ==> output == text && crc == encoded
    ensures !finished ==> |output| == Space(spaces, |spaces|)
  {
    hide UnRle, Encoder.Holds, CrcOver;
    var z := new Encoder(capacity, update);
    for i := 0 to |text|
      invariant z.Valid() && fresh(z) && fresh(z.block) && fresh(z.inUse) && z.block.Length == capacity && z.update == update
      invariant z.Contents() == text[..i] && z.nblock <= 5 * i && (i == 0 ==> z.nblock == 0) && (i > 0 ==> !z.IsEmpty())
    {
      z.AddChar(text[i]);
      assert text[..i + 1] == text[..i] + [text[i]];
    }
    assert text[..|text|] == text;
    z.FlushRL();
    encoded := z.blockCRC;
    var block := z.block[..z.nblock];
    if block == [] { NoText(); }
    assert (block + over)[..z.nblock] == block;
    corrupt, finished, output, crc := DecodeBlock(block + over, z.nblock, update, spaces);
  }

  lemma {:induction false} NoText()
    ensures UnRle([]) == Some([])
  {
  }
}
