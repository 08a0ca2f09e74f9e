/** How a file is cut into blocks (udp/lib/Server.cpp, lines 153-161 and 186-195; section 6 of RFC 1350). */
module TftpFraming {
  import opened Common
  import opened Packets
  import opened TftpServer
  import NetAscii

  /** The first k blocks of x, put together. */
  function Cut(x: string, k: nat): string { x[..Min(BLOCK * k, |x|)] }

  /** Block number k, counted from 1. */
  function BlockAt(x: string, k: nat): string
    requires k >= 1
  {
    x[Min(BLOCK * (k - 1), |x|)..Min(BLOCK * k, |x|)]
  }

  /** An octet transfer always has a short last block, empty if need be; a netascii transfer of a
      multiple of 512 characters has none. */
  function TotalBlocks(mode: TransferMode, x: string): nat {
    if mode.OCTET? then |x| / BLOCK + 1 else (|x| + BLOCK - 1) / BLOCK
  }

  predicate EndsShort(mode: TransferMode, x: string) {
    mode.OCTET? || |x| % BLOCK != 0
  }

  /** The source once n blocks have been taken from it. */
  function SourceAt(mode: TransferMode, x: string, n: nat): (s: Source)
    ensures ValidSource(s)
  {
    Source(mode, x, Min(BLOCK * n, |x|), mode.OCTET? && n > |x| / BLOCK)
  }

  lemma SourceSteps(mode: TransferMode, x: string, n: nat)
    requires n <= TotalBlocks(mode, x)
    ensures AtEof(SourceAt(mode, x, n)) <==> n == TotalBlocks(mode, x)
    ensures n < TotalBlocks(mode, x) ==>
      NextBlock(SourceAt(mode, x, n)) == BlockResult(SourceAt(mode, x, n + 1), BlockAt(x, n + 1))
  {
    assert BLOCK * (n + 1) == BLOCK * n + BLOCK;
  }

  lemma CutExtends(x: string, k: nat)
    requires k >= 1
    ensures Cut(x, k) == Cut(x, k - 1) + BlockAt(x, k)
  {}

  lemma ShortBlock(mode: TransferMode, x: string, k: nat)
    requires 1 <= k <= TotalBlocks(mode, x)
    ensures |BlockAt(x, k)| <= BLOCK
    ensures |BlockAt(x, k)| < BLOCK <==> k == TotalBlocks(mode, x) && EndsShort(mode, x)
    ensures k == TotalBlocks(mode, x) ==> Cut(x, k) == x
  {
    assert BLOCK * k == BLOCK * (k - 1) + BLOCK;
  }

  /** Everything a session will send: NextBlock until Eof. */
  function AllBlocks(s: Source): seq<string>
    requires ValidSource(s)
    decreases |s.contents| - s.cursor, !s.eof
  {
    if AtEof(s) then [] else [NextBlock(s).block] + AllBlocks(NextBlock(s).source)
  }

  function Flatten(blocks: seq<string>): string {
    if blocks == [] then "" else blocks[0] + Flatten(blocks[1..])
  }

  lemma OneBlock(mode: TransferMode, x: string, n: nat)
    requires n < TotalBlocks(mode, x)
    ensures AllBlocks(SourceAt(mode, x, n)) == [BlockAt(x, n + 1)] + AllBlocks(SourceAt(mode, x, n + 1))
  {
    hide TotalBlocks, SourceAt, BlockAt, AtEof, NextBlock;
    SourceSteps(mode, x, n);
  }

  lemma NoBlock(mode: TransferMode, x: string)
    ensures AllBlocks(SourceAt(mode, x, TotalBlocks(mode, x))) == []
  {
    SourceSteps(mode, x, TotalBlocks(mode, x));
  }

  lemma {:induction false} BlocksFrom(mode: TransferMode, x: string, n: nat)
    requires n <= TotalBlocks(mode, x)
    ensures var bs := AllBlocks(SourceAt(mode, x, n));
            && |bs| == TotalBlocks(mode, x) - n
            && (forall i :: 0 <= i < |bs| ==> bs[i] == BlockAt(x, n + i + 1))
            && Cut(x, n) + Flatten(bs) == x
    decreases TotalBlocks(mode, x) - n
  {
    hide AllBlocks, BlockAt, Cut, Flatten, SourceAt, TotalBlocks;
    if n < TotalBlocks(mode, x) {
      OneBlock(mode, x, n);
      BlocksFrom(mode, x, n + 1);
      var head := BlockAt(x, n + 1);
      var tail := AllBlocks(SourceAt(mode, x, n + 1));
      var bs := AllBlocks(SourceAt(mode, x, n));
      assert bs == [head] + tail;
      forall i | 0 <= i < |bs| ensures bs[i] == BlockAt(x, n + i + 1) {
        if i > 0 {
          assert bs[i] == tail[i - 1];
        }
      }
      JoinHead(x, n, head, tail);
    } else {
      NoBlock(mode, x);
      ShortOrEmpty(mode, x);
    }
  }

  lemma JoinHead(x: string, n: nat, head: string, tail: seq<string>)
    requires head == BlockAt(x, n + 1) && Cut(x, n + 1) + Flatten(tail) == x
    ensures Cut(x, n) + Flatten([head] + tail) == x
  {
    CutExtends(x, n + 1);
    assert ([head] + tail)[1..] == tail;
    assert Cut(x, n) + (head + Flatten(tail)) == Cut(x, n) + head + Flatten(tail);
  }

  lemma ShortOrEmpty(mode: TransferMode, x: string)
    ensures Cut(x, TotalBlocks(mode, x)) + Flatten([]) == x
  {
    assert BLOCK * TotalBlocks(mode, x) >= |x|;
  }

  lemma StartsAtZero(mode: TransferMode, file: string)
    ensures SourceAt(mode, Payload(mode, file), 0) == OpenRead(mode, file).source && Cut(file, 0) == ""
    ensures EndsShort(mode, Payload(mode, file)) ==> TotalBlocks(mode, Payload(mode, file)) > 0
  {}

  /** Framing: the blocks of a session put together are the file, or in netascii mode its encoding; all
      but the last are 512 characters long, and the last is shorter exactly for octet mode or an
      encoding that is no multiple of 512. */
  lemma Framing(mode: TransferMode, file: string)
    ensures
      var x := if mode.OCTET? then file else NetAscii.Encode(file);
      var bs := AllBlocks(OpenRead(mode, file).source);
      && |bs| == (if mode.OCTET? then |x| / 512 + 1 else (|x| + 511) / 512)
      && Flatten(bs) == x
      && (forall i :: 0 <= i < |bs| - 1 ==> |bs[i]| == 512)
      && (bs != [] ==> |bs[|bs| - 1]| <= 512)
      && ((bs != [] && |bs[|bs| - 1]| < 512) <==> mode.OCTET? || |x| % 512 != 0)
  {
    var x := Payload(mode, file);
    var bs := AllBlocks(OpenRead(mode, file).source);
    FramingCounts(mode, file);
    hide AllBlocks, BlockAt, Flatten, TotalBlocks, Payload, EndsShort;
    StartsAtZero(mode, file);
    BlocksFrom(mode, x, 0);
    forall i | 0 <= i < |bs|
      ensures |bs[i]| <= BLOCK
      ensures |bs[i]| < BLOCK <==> i == |bs| - 1 && EndsShort(mode, x)
    {
      ShortBlock(mode, x, i + 1);
    }
  }

  lemma FramingCounts(mode: TransferMode, file: string)
    ensures var x := Payload(mode, file);
      && x == (if mode.OCTET? then file else NetAscii.Encode(file))
      && TotalBlocks(mode, x) == (if mode.OCTET? then |x| / 512 + 1 else (|x| + 511) / 512)
      && (EndsShort(mode, x) <==> mode.OCTET? || |x| % 512 != 0)
  {}
}
