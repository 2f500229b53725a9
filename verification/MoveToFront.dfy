/** generateMTFValues of deps/bzip2/compress.c, and its inverse. */
module MoveToFront {
  import opened Counting
  import opened Options
  import opened Permutations
  import opened Rotations
  import opened Bwt
  import opened WordMemory
  import opened TwoLevelMtf

  const RUNA := 0
  const RUNB := 1

  // ----- the code

  /** A run of `z` zeros: bijective base-2 digits, least significant first. */
  ghost function Run(z: nat): (r: seq<int>)
    ensures |r| <= z
    ensures forall k :: 0 <= k < |r| ==> r[k] == RUNA || r[k] == RUNB
  {
    if z == 0 then []
    else if z % 2 == 1 then [RUNA] + Run((z - 1) / 2)
    else [RUNB] + Run((z - 2) / 2)
  }

  ghost function IndexOf(s: seq<int>, x: int): (k: nat)
    requires x in s
    ensures k < |s| && s[k] == x && forall j :: 0 <= j < k ==> s[j] != x
  {
    if s[0] == x then 0 else 1 + IndexOf(s[1..], x)
  }

  ghost predicate AllIn(syms: seq<int>, list: seq<int>) {
    forall k :: 0 <= k < |syms| ==> syms[k] in list
  }

  lemma MoveFrontSame(s: seq<int>, k: nat)
    requires k < |s|
    ensures multiset(MoveFront(s, k)) == multiset(s)
    ensures forall x :: x in MoveFront(s, k) <==> x in s
  {
    assert s == s[..k] + [s[k]] + s[k + 1..];
    assert multiset(MoveFront(s, k)) == multiset{s[k]} + multiset(s[..k]) + multiset(s[k + 1..]);
    assert forall x :: x in s <==> x in multiset(s);
    assert forall x :: x in MoveFront(s, k) <==> x in multiset(MoveFront(s, k));
  }

  /** The symbols for `syms` with `pend` zeros pending, ending with `eob`. */
  ghost function Code(list: seq<int>, syms: seq<int>, pend: nat, eob: int): (r: seq<int>)
    requires list != [] && AllIn(syms, list)
    ensures r != []
    decreases |syms|
  {
    if syms == [] then Run(pend) + [eob]
    else if syms[0] == list[0] then Code(list, syms[1..], pend + 1, eob)
    else
      assert syms[0] in list;
      var k := IndexOf(list, syms[0]);
      MoveFrontSame(list, k);
      Run(pend) + [k + 1] + Code(MoveFront(list, k), syms[1..], 0, eob)
  }

  /** No more symbols than bytes and the end marker, so the output can overlay the pointers. */
  lemma {:induction false} CodeLength(list: seq<int>, syms: seq<int>, pend: nat, eob: int)
    requires list != [] && AllIn(syms, list)
    ensures |Code(list, syms, pend, eob)| <= pend + |syms| + 1
    decreases |syms|
  {
    if syms != [] {
      if syms[0] == list[0] {
        CodeLength(list, syms[1..], pend + 1, eob);
      } else {
        var k := IndexOf(list, syms[0]);
        MoveFrontSame(list, k);
        CodeLength(MoveFront(list, k), syms[1..], 0, eob);
      }
    }
  }

  // ----- what the decoder makes of it

  function Rep(x: int, n: nat): (r: seq<int>)
    ensures |r| == n && forall k :: 0 <= k < n ==> r[k] == x
  {
    seq(n, _ => x)
  }

  /** The entries delivered for `code`: `acc` zeros of the current run so far, `w` the weight of its
      next digit, `room` the space left in the block. None stands for the decoder's data errors, and
      for a code without end marker. */
  ghost function Decode(list: seq<int>, code: seq<int>, acc: nat, w: nat, room: nat, eob: int): Option<seq<int>>
    requires list != []
    decreases |code|
  {
    if code == [] then None
    else if code[0] == RUNA || code[0] == RUNB then
      if w >= 2 * 1024 * 1024 then None
      else Decode(list, code[1..], acc + (code[0] + 1) * w, 2 * w, room, eob)
    else if acc > room then None
    else if code[0] == eob then Some(Rep(list[0], acc))
    else if acc == room || !(0 <= code[0] - 1 < |list|) then None
    else
      match Decode(MoveFront(list, code[0] - 1), code[1..], 0, 1, room - acc - 1, eob)
      case None => None
      case Some(r) => Some(Rep(list[0], acc) + [list[code[0] - 1]] + r)
  }

  /** Once the run has ended, its weight no longer matters. */
  lemma DecodeNoRun(list: seq<int>, rest: seq<int>, acc: nat, w: nat, w': nat, room: nat, eob: int)
    requires list != [] && rest != [] && rest[0] != RUNA && rest[0] != RUNB
    ensures Decode(list, rest, acc, w, room, eob) == Decode(list, rest, acc, w', room, eob)
  {
  }

  lemma RunWeight(w: nat, z: nat, d: nat, z': nat)
    requires w >= 1 && z == d + 2 * z' && d >= 1
    ensures w <= w * z && w * z == d * w + (2 * w) * z' && (2 * w) * z' <= w * z
  {
    assert w * (d + 2 * z') == w * d + w * (2 * z');
    assert w * (2 * z') == (2 * w) * z';
    assert w <= w * d;
  }

  lemma DecodeDigit(list: seq<int>, code: seq<int>, acc: nat, w: nat, room: nat, eob: int)
    requires list != [] && code != [] && (code[0] == RUNA || code[0] == RUNB) && w < 2 * 1024 * 1024
    ensures Decode(list, code, acc, w, room, eob) == Decode(list, code[1..], acc + (code[0] + 1) * w, 2 * w, room, eob)
  {
  }

  lemma DecodeEnd(list: seq<int>, acc: nat, w: nat, room: nat, eob: int)
    requires list != [] && eob >= 2 && acc <= room
    ensures Decode(list, [eob], acc, w, room, eob) == Some(Rep(list[0], acc))
  {
  }

  lemma DecodeMove(list: seq<int>, code: seq<int>, acc: nat, w: nat, room: nat, eob: int, out: seq<int>)
    requires code != [] && 2 <= code[0] <= |list| && code[0] != eob && acc < room
    requires Decode(MoveFront(list, code[0] - 1), code[1..], 0, 1, room - acc - 1, eob) == Some(out)
    ensures Decode(list, code, acc, w, room, eob) == Some(Rep(list[0], acc) + [list[code[0] - 1]] + out)
  {
  }

  lemma RunParts(z: nat)
    ensures z == 0 ==> Run(z) == []
    ensures z > 0 ==> Run(z) == [if z % 2 == 1 then RUNA else RUNB] + Run((z - 1) / 2)
  {
    if z > 0 && z % 2 == 0 { assert (z - 1) / 2 == (z - 2) / 2; }
  }

  /** A run of legal size is read back, and does not trip the decoder's limit on the weight. */
  lemma {:induction false} DecodeRun(list: seq<int>, z: nat, rest: seq<int>, acc: nat, w: nat, room: nat, eob: int)
    requires list != [] && w >= 1 && w * z < 2 * 1024 * 1024
    requires rest != [] && rest[0] != RUNA && rest[0] != RUNB
    ensures Decode(list, Run(z) + rest, acc, w, room, eob) == Decode(list, rest, acc + w * z, 1, room, eob)
    decreases z
  {
    hide Decode, Run;
    var code := Run(z) + rest;
    RunParts(z);
    if z == 0 {
      assert code == rest;
      DecodeNoRun(list, rest, acc, w, 1, room, eob);
      assert w * z == 0;
    } else {
      var z' := (z - 1) / 2;
      var d := if z % 2 == 1 then 1 else 2;
      RunWeight(w, z, d, z');
      assert code == [d - 1] + (Run(z') + rest);
      assert code[1..] == Run(z') + rest;
      DecodeDigit(list, code, acc, w, room, eob);
      DecodeRun(list, z', rest, acc + d * w, 2 * w, room, eob);
    }
  }

  lemma MoveFrontPrefix(s: seq<int>, m: nat, k: nat)
    requires k < m <= |s|
    ensures MoveFront(s, k)[..m] == MoveFront(s[..m], k)
  {
  }

  lemma CodeNil(list: seq<int>, pend: nat, eob: int)
    requires list != []
    ensures Code(list, [], pend, eob) == Run(pend) + [eob]
  {
  }

  lemma CodeZero(list: seq<int>, syms: seq<int>, pend: nat, eob: int)
    requires list != [] && AllIn(syms, list) && syms != [] && syms[0] == list[0]
    ensures AllIn(syms[1..], list) && Code(list, syms, pend, eob) == Code(list, syms[1..], pend + 1, eob)
  {
  }

  lemma CodeMove(list: seq<int>, syms: seq<int>, pend: nat, eob: int) returns (k: nat)
    requires list != [] && AllIn(syms, list) && syms != [] && syms[0] != list[0]
    ensures 0 < k < |list| && list[k] == syms[0] && (forall j :: 0 <= j < k ==> list[j] != syms[0])
    ensures AllIn(syms[1..], MoveFront(list, k))
    ensures Code(list, syms, pend, eob) == Run(pend) + [k + 1] + Code(MoveFront(list, k), syms[1..], 0, eob)
  {
    assert syms[0] in list;
    k := IndexOf(list, syms[0]);
    MoveFrontSame(list, k);
  }

  /** Round trip: decoding the coded symbols gives the symbols back, whatever follows the first
      `|elist|` entries of the decoder's list. */
  lemma {:induction false} RoundTrip(elist: seq<int>, dlist: seq<int>, syms: seq<int>, pend: nat, room: nat)
    requires elist != [] && |elist| <= |dlist| && dlist[..|elist|] == elist && AllIn(syms, elist)
    requires pend + |syms| <= room < 2 * 1024 * 1024
    ensures Decode(dlist, Code(elist, syms, pend, |elist| + 1), 0, 1, room, |elist| + 1) == Some(Rep(elist[0], pend) + syms)
    decreases |syms|
  {
    hide Decode, Code, Run, MoveFront;
    var m, eob := |elist|, |elist| + 1;
    assert dlist[0] == elist[0];
    if syms == [] {
      CodeNil(elist, pend, eob);
      DecodeRun(dlist, pend, [eob], 0, 1, room, eob);
      DecodeEnd(dlist, pend, 1, room, eob);
      assert Rep(elist[0], pend) + syms == Rep(elist[0], pend);
    } else if syms[0] == elist[0] {
      CodeZero(elist, syms, pend, eob);
      RoundTrip(elist, dlist, syms[1..], pend + 1, room);
      assert Rep(elist[0], pend + 1) + syms[1..] == Rep(elist[0], pend) + syms;
    } else {
      var k := CodeMove(elist, syms, pend, eob);
      var code := Code(MoveFront(elist, k), syms[1..], 0, eob);
      var rest := [k + 1] + code;
      assert Run(pend) + [k + 1] + code == Run(pend) + rest;
      DecodeRun(dlist, pend, rest, 0, 1, room, eob);
      assert rest[1..] == code;
      MoveFrontPrefix(dlist, m, k);
      assert dlist[k] == elist[k];
      RoundTrip(MoveFront(elist, k), MoveFront(dlist, k), syms[1..], 0, room - pend - 1);
      var out := Rep(MoveFront(elist, k)[0], 0) + syms[1..];
      assert out == syms[1..];
      DecodeMove(dlist, rest, pend, 1, room, eob, out);
      assert Rep(elist[0], pend) + [syms[0]] + syms[1..] == Rep(elist[0], pend) + syms;
    }
  }

  // ----- the maps between bytes and symbol numbers

  /** The bytes below `k` that are in use, ascending. */
  ghost function Used(inUse: seq<bool>, k: nat): (r: seq<int>)
    requires k <= |inUse|
    ensures |r| <= k
    ensures forall j :: 0 <= j < |r| ==> 0 <= r[j] < k
  {
    if k == 0 then [] else Used(inUse, k - 1) + (if inUse[k - 1] then [k - 1] else [])
  }

  lemma {:induction false} UsedPrefix(inUse: seq<bool>, j: nat, k: nat)
    requires j < k <= |inUse| && inUse[j]
    ensures |Used(inUse, j)| < |Used(inUse, k)| && Used(inUse, k)[|Used(inUse, j)|] == j
  {
    if j + 1 < k { UsedPrefix(inUse, j, k - 1); }
  }

  /** The symbol numbers of the bytes of a column. */
  ghost function Syms(inUse: seq<bool>, col: seq<int>): (r: seq<int>)
    requires |inUse| == 256 && IsBytes(col)
    ensures |r| == |col|
  {
    seq(|col|, i requires 0 <= i < |col| => |Used(inUse, col[i])|)
  }

  /** Every byte of the block is marked as used. */
  ghost predicate Covers(inUse: seq<bool>, b: seq<int>) {
    |inUse| == 256 && IsBytes(b) && forall k :: 0 <= k < |b| ==> inUse[b[k]]
  }

  /** The decoder's map undoes the encoder's. */
  lemma SymsBack(inUse: seq<bool>, col: seq<int>)
    requires Covers(inUse, col)
    ensures AllIn(Syms(inUse, col), Iota(|Used(inUse, 256)|))
    ensures forall i :: 0 <= i < |col| ==>
              0 <= Syms(inUse, col)[i] < |Used(inUse, 256)| && Used(inUse, 256)[Syms(inUse, col)[i]] == col[i]
  {
    forall i | 0 <= i < |col|
      ensures 0 <= Syms(inUse, col)[i] < |Used(inUse, 256)| && Used(inUse, 256)[Syms(inUse, col)[i]] == col[i]
    {
      UsedPrefix(inUse, col[i], 256);
    }
    forall i | 0 <= i < |col| ensures Syms(inUse, col)[i] in Iota(|Used(inUse, 256)|) {
      assert Iota(|Used(inUse, 256)|)[Syms(inUse, col)[i]] == Syms(inUse, col)[i];
    }
  }

  /** makeMaps_e */
  method MakeMapsE(inUse: array<bool>) returns (unseqToSeq: array<int>, nInUse: int)
    requires inUse.Length == 256
    ensures fresh(unseqToSeq) && unseqToSeq.Length == 256
    ensures nInUse == |Used(inUse[..], 256)|
    ensures forall c :: 0 <= c < 256 && inUse[c] ==> unseqToSeq[c] == |Used(inUse[..], c)|
  {
    unseqToSeq := new int[256];
    nInUse := 0;
    for i := 0 to 256
      invariant nInUse == |Used(inUse[..], i)|
      invariant forall c :: 0 <= c < i && inUse[c] ==> unseqToSeq[c] == |Used(inUse[..], c)|
    {
      if inUse[i] {
        unseqToSeq[i] := nInUse;
        nInUse := nInUse + 1;
      }
    }
  }

  /** makeMaps_d */
  method MakeMapsD(inUse: array<bool>) returns (seqToUnseq: array<int>, nInUse: int)
    requires inUse.Length == 256
    ensures fresh(seqToUnseq) && seqToUnseq.Length == 256
    ensures nInUse == |Used(inUse[..], 256)|
    ensures seqToUnseq[..nInUse] == Used(inUse[..], 256) && IsBytes(seqToUnseq[..])
  {
    seqToUnseq := new int[256](_ => 0);
    nInUse := 0;
    for i := 0 to 256
      invariant IsBytes(seqToUnseq[..])
      invariant nInUse == |Used(inUse[..], i)| && seqToUnseq[..nInUse] == Used(inUse[..], i)
    {
      if inUse[i] {
        seqToUnseq[nInUse] := i;
        nInUse := nInUse + 1;
      }
    }
  }

  // ----- generating the symbols

  /** The symbols written so far, and their frequencies. */
  ghost predicate Written(a: seq<int>, freq: seq<int>, out: seq<int>) {
    && |out| <= 2 * |a| && |freq| == 258
    && (forall k :: 0 <= k < |out| ==> 0 <= k / 2 < |a| && HalfAt(a, k) == out[k] && 0 <= out[k] < 258)
    && (forall c :: 0 <= c < 258 ==> freq[c] == multiset(out)[c])
  }

  method Emit(arr1: array<int>, freq: array<int>, wr: int, v: int, ghost out: seq<int>)
    requires arr1 != freq && wr == |out| && Written(arr1[..], freq[..], out)
    requires wr / 2 < arr1.Length && 0 <= v < 258
    modifies arr1, freq
    ensures Written(arr1[..], freq[..], out + [v])
    ensures forall j :: 0 <= j < arr1.Length && j != wr / 2 ==> arr1[j] == old(arr1[j])
  {
    ghost var f0 := freq[..];
    PutHalf(arr1, wr, v);
    freq[v] := freq[v] + 1;
    assert freq[..] == f0[v := f0[v] + 1];
    assert multiset(out + [v]) == multiset(out) + multiset{v};
  }

  /** The pending zeros are written; only words before `lim` are touched. */
  method EmitRun(arr1: array<int>, freq: array<int>, wr0: int, z: int, ghost out: seq<int>, ghost lim: int) returns (wr: int)
    requires arr1 != freq && wr0 == |out| && Written(arr1[..], freq[..], out)
    requires z > 0 && lim <= arr1.Length && wr0 + |Run(z)| <= 2 * lim
    modifies arr1, freq
    ensures wr == wr0 + |Run(z)| && Written(arr1[..], freq[..], out + Run(z))
    ensures forall j :: lim <= j < arr1.Length ==> arr1[j] == old(arr1[j])
  {
    hide Written, Run;
    wr := wr0;
    ghost var o := out;
    var zPend := z - 1;
    while true
      invariant zPend >= 0 && wr == |o| && o + Run(zPend + 1) == out + Run(z)
      invariant Written(arr1[..], freq[..], o)
      invariant forall j :: lim <= j < arr1.Length ==> arr1[j] == old(arr1[j])
      decreases zPend
    {
      var d := if zPend % 2 == 1 then RUNB else RUNA;
      ghost var more := if zPend < 2 then [] else Run((zPend - 2) / 2 + 1);
      RunStep(zPend);
      assert o + Run(zPend + 1) == (o + [d]) + more;
      Emit(arr1, freq, wr, d, o);
      o := o + [d];
      wr := wr + 1;
      if zPend < 2 { break; }
      zPend := (zPend - 2) / 2;
    }
    assert o == out + Run(z);
  }

  /** One digit of a run, in terms of the source's counter, which is one less. */
  lemma {:induction false} RunStep(zPend: nat)
    ensures Run(zPend + 1) == [if zPend % 2 == 1 then RUNB else RUNA] + (if zPend < 2 then [] else Run((zPend - 2) / 2 + 1))
  {
    var z := zPend + 1;
    if zPend % 2 == 1 {
      assert Run(z) == [RUNB] + Run((z - 2) / 2);
      assert zPend >= 2 ==> (z - 2) / 2 == (zPend - 2) / 2 + 1;
    } else {
      assert Run(z) == [RUNA] + Run((z - 1) / 2);
      assert zPend >= 2 ==> (z - 1) / 2 == (zPend - 2) / 2 + 1;
    }
  }

  /** The search of the list `yy` for a symbol that is not at its front, which moves it there. */
  method FindFront(yy: array<int>, m: int, ll: int, ghost w: int) returns (j: int)
    requires 0 < w < m <= yy.Length && yy[w] == ll && yy[0] != ll
    modifies yy
    ensures 0 < j < m && old(yy[j]) == ll && forall i :: 0 <= i < j ==> old(yy[i]) != ll
    ensures yy[..m] == MoveFront(old(yy[..m]), j)
  {
    hide MovedUp, MoveFront;
    ghost var s := yy[..];
    MovedUpNone(s, 0);
    MovedUpGrow(s, 0);
    var rtmp := yy[1];
    yy[1] := yy[0];
    j := 1;
    assert yy[..] == s[1 := s[0]];
    while ll != rtmp
      invariant 1 <= j <= w && rtmp == s[j]
      invariant yy[..] == MovedUp(s, 0, j)
      invariant forall i :: 0 <= i < j ==> s[i] != ll
      decreases w - j
    {
      MovedUpGrow(s, j);
      j := j + 1;
      var rtmp2 := rtmp;
      ghost var y := yy[..];
      rtmp := yy[j];
      yy[j] := rtmp2;
      assert rtmp == y[j] && yy[..] == y[j := rtmp2];
    }
    ghost var y := yy[..];
    yy[0] := rtmp;
    MovedUpFront(s, j, m);
    assert yy[..] == y[0 := rtmp];
    assert yy[..m] == yy[..][..m];
  }

  /** One byte of the column: it joins the pending zeros, or ends them and is coded itself. */
  method CodeOne(arr1: array<int>, freq: array<int>, yy: array<int>, m: int, ll: int, wr0: int, z0: int,
                 ghost lim: int, ghost rest: seq<int>, ghost out0: seq<int>)
    returns (wr: int, zPend: int, ghost out: seq<int>)
    requires arr1 != freq && yy != arr1 && yy != freq && 0 < m <= yy.Length && m <= 256
    requires z0 >= 0 && wr0 == |out0| && wr0 + z0 < lim <= arr1.Length && Written(arr1[..], freq[..], out0)
    requires rest != [] && rest[0] == ll && AllIn(rest, yy[..m])
    modifies arr1, freq, yy
    ensures zPend >= 0 && wr == |out| && wr + zPend <= lim && Written(arr1[..], freq[..], out)
    ensures AllIn(rest[1..], yy[..m])
    ensures out + Code(yy[..m], rest[1..], zPend, m + 1) == out0 + Code(old(yy[..m]), rest, z0, m + 1)
    ensures forall j :: lim <= j < arr1.Length ==> arr1[j] == old(arr1[j])
  {
    hide Written, Code, Run;
    ghost var list := yy[..m];
    wr, zPend, out := wr0, z0, out0;
    if yy[0] == ll {
      CodeZero(list, rest, zPend, m + 1);
      zPend := zPend + 1;
      return;
    }
    ghost var k := CodeMove(list, rest, zPend, m + 1);
    if zPend > 0 {
      wr := EmitRun(arr1, freq, wr, zPend, out, lim);
    } else {
      RunNone();
      assert out + Run(zPend) == out;
    }
    ghost var o1 := out + Run(zPend);
    var j := FindFront(yy, m, ll, k);
    assert j == k;
    Emit(arr1, freq, wr, j + 1, o1);
    wr := wr + 1;
    out := o1 + [j + 1];
    ghost var tail := Code(yy[..m], rest[1..], 0, m + 1);
    assert out + tail == out0 + (Run(z0) + [j + 1] + tail);
    zPend := 0;
  }

  /** After the last byte: the pending zeros and the end marker. */
  method CodeLast(arr1: array<int>, freq: array<int>, wr0: int, zPend: int, n: int, EOB: int, ghost out: seq<int>)
    returns (wr: int)
    requires arr1 != freq && zPend >= 0 && 0 < n <= arr1.Length && 0 <= EOB < 258
    requires wr0 == |out| && wr0 + zPend <= n && Written(arr1[..], freq[..], out)
    modifies arr1, freq
    ensures Written(arr1[..], freq[..], out + Run(zPend) + [EOB])
    ensures wr == |out + Run(zPend) + [EOB]|
  {
    hide Written, Run;
    wr := wr0;
    if zPend > 0 {
      wr := EmitRun(arr1, freq, wr, zPend, out, n);
    } else {
      RunNone();
      assert out + Run(zPend) == out;
    }
    Emit(arr1, freq, wr, EOB, out + Run(zPend));
    wr := wr + 1;
  }

  method ClearFreq(freq: array<int>)
    requires freq.Length == 258
    modifies freq
    ensures forall c :: 0 <= c < 258 ==> freq[c] == 0
  {
    for i := 0 to 258
      invariant forall c :: 0 <= c < i ==> freq[c] == 0
    {
      freq[i] := 0;
    }
  }

  method InitList(nInUse: int) returns (yy: array<int>)
    requires 0 <= nInUse <= 256
    ensures fresh(yy) && yy.Length == 256 && yy[..nInUse] == Iota(nInUse)
  {
    yy := new int[256];
    for i := 0 to nInUse
      invariant forall k :: 0 <= k < i ==> yy[k] == k
    {
      yy[i] := i;
    }
  }

  /** generateMTFValues: the last column of the sorted rotations, as symbols. The symbols overlay the
      pointers they are computed from; no pointer is overwritten before it is read. */
  method GenerateMTFValues(arr1: array<int>, arr2: array<int>, inUse: array<bool>, freq: array<int>, n: int,
                           ghost b: seq<int>, ghost f: seq<int>)
    returns (nMTF: int, nInUse: int)
    requires arr1 != arr2 && freq != arr1 && freq != arr2 && inUse.Length == 256 && freq.Length == 258
    requires 0 < n == |b| && n <= arr1.Length && n <= arr2.Length && b == Bytes(arr2[..], n)
    requires f == arr1[..n] && IsPerm(f, n) && Covers(inUse[..], b)
    modifies arr1, freq
    ensures 1 <= nInUse == |Used(inUse[..], 256)| <= 256
    ensures AllIn(Syms(inUse[..], Column(b, f)), Iota(nInUse))
    ensures var code := Code(Iota(nInUse), Syms(inUse[..], Column(b, f)), 0, nInUse + 1);
            nMTF == |code| <= n + 1 && Written(arr1[..], freq[..], code)
  {
    hide Written, Code, Run, Syms, Used, Bytes, Column, Covers, Distinct, AllIn;
    ghost var col, use := Column(b, f), inUse[..];
    ghost var syms := Syms(use, col);
    ColumnCovered(use, b, f);
    SymsBack(use, col);
    var unseqToSeq;
    unseqToSeq, nInUse := MakeMapsE(inUse);
    assert nInUse > 0 by { assert 0 <= syms[0] < nInUse; }
    var EOB := nInUse + 1;
    ClearFreq(freq);
    var yy := InitList(nInUse);
    ghost var code := Code(Iota(nInUse), syms, 0, EOB);
    CodeLength(Iota(nInUse), syms, 0, EOB);
    ghost var out: seq<int> := [];
    WrittenNone(arr1[..], freq[..]);
    var wr, zPend := 0, 0;
    var i := 0;
    assert syms[0..] == syms;
    while i < n
      invariant 0 <= i <= n && 0 <= zPend && wr == |out| && wr + zPend <= i
      invariant forall k :: i <= k < n ==> arr1[k] == f[k]
      invariant Written(arr1[..], freq[..], out)
      invariant forall c :: 0 <= c < 256 && use[c] ==> unseqToSeq[c] == |Used(use, c)|
      invariant AllIn(syms[i..], yy[..nInUse])
      invariant out + Code(yy[..nInUse], syms[i..], zPend, EOB) == code
    {
      ghost var list, rest := yy[..nInUse], syms[i..];
      var j := arr1[i] - 1;
      if j < 0 { j := j + n; }
      ColumnAt(b, f, i);
      var v := GetByte(arr2, j, b);
      var ll := unseqToSeq[v];
      SymAt(use, col, i);
      assert ll == syms[i] == rest[0] && rest[1..] == syms[i + 1..];
      wr, zPend, out := CodeOne(arr1, freq, yy, nInUse, ll, wr, zPend, i + 1, rest, out);
      i := i + 1;
    }
    assert syms[n..] == [];
    CodeNil(yy[..nInUse], zPend, EOB);
    nMTF := CodeLast(arr1, freq, wr, zPend, n, EOB, out);
    assert out + Run(zPend) + [EOB] == out + (Run(zPend) + [EOB]);
  }

  lemma RunNone()
    ensures Run(0) == []
  {
  }

  lemma WrittenNone(a: seq<int>, freq: seq<int>)
    requires |freq| == 258 && forall c :: 0 <= c < 258 ==> freq[c] == 0
    ensures Written(a, freq, [])
  {
  }

  lemma ColumnAt(b: seq<int>, f: seq<int>, i: int)
    requires IsPerm(f, |b|) && 0 <= i < |b|
    ensures Column(b, f)[i] == b[if f[i] - 1 < 0 then f[i] - 1 + |b| else f[i] - 1]
  {
  }

  lemma SymAt(inUse: seq<bool>, col: seq<int>, i: int)
    requires Covers(inUse, col) && 0 <= i < |col|
    ensures 0 <= col[i] < 256 && inUse[col[i]] && Syms(inUse, col)[i] == |Used(inUse, col[i])|
  {
  }

  lemma ColumnCovered(inUse: seq<bool>, b: seq<int>, f: seq<int>)
    requires IsPerm(f, |b|) && Covers(inUse, b)
    ensures Covers(inUse, Column(b, f))
  {
  }
}
