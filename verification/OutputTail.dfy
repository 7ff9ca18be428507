/** Draining a command's output while keeping a bounded tail of it (crates/updater/src/ssh.rs:156-170). */
module OutputTail {
  type Byte = b: nat | b < 0x100

  const LIMIT: nat := 16_384

  /** What one read delivers: some bytes, none at the end of the stream, or a failure. */
  datatype Chunk = Data(bytes: seq<Byte>) | Failed(code: int)
  datatype Result<+T> = Ok(value: T) | Err(code: int)

  /** The whole stream: the bytes of all chunks up to the end, unless a read fails before that. */
  function Stream(chunks: seq<Chunk>): Result<seq<Byte>> {
    if chunks == [] || chunks[0] == Data([]) then Ok([])
    else if chunks[0].Failed? then Err(chunks[0].code)
    else Behind(chunks[0].bytes, Stream(chunks[1..]))
  }

  function Behind(bytes: seq<Byte>, later: Result<seq<Byte>>): Result<seq<Byte>> {
    if later.Err? then later else Ok(bytes + later.value)
  }

  lemma BehindTwice(a: seq<Byte>, b: seq<Byte>, later: Result<seq<Byte>>)
    ensures Behind(a, Behind(b, later)) == Behind(a + b, later)
    ensures Behind([], later) == later
  {
    if later.Ok? {
      assert a + (b + later.value) == a + b + later.value;
      assert [] + later.value == later.value;
    }
  }

  /** The last `n` elements, or all where there are fewer. */
  function Last<T>(s: seq<T>, n: nat): (tail: seq<T>)
    ensures |tail| == if |s| < n then |s| else n
    ensures tail == s[|s| - |tail|..]
  {
    if |s| <= n then s else s[|s| - n..]
  }

  lemma LastOfAppend<T>(a: seq<T>, b: seq<T>, n: nat)
    ensures Last(Last(a, n) + b, n) == Last(a + b, n)
  {
    hide Last;
    LastIs(a, n);
    if |a| > n {
      var k := |a| - n;
      assert (a + b)[k..] == a[k..] + b;
      LastOfSuffix(a + b, k, n);
    }
  }

  lemma LastOfSuffix<T>(s: seq<T>, k: nat, n: nat)
    requires k <= |s| && n <= |s| - k
    ensures Last(s[k..], n) == Last(s, n)
  {
    assert s[k..][|s| - k - n..] == s[|s| - n..];
  }

  /** However the stream is cut into chunks, the output is its last bytes up to the limit; a read that fails before the
      end fails the whole. */
  method ReadOutputTail(chunks: seq<Chunk>) returns (result: Result<seq<Byte>>)
    ensures match Stream(chunks)
            case Err(code) => result == Err(code)
            case Ok(all) => result == Ok(Last(all, 16_384))
  {
    LimitIs();
    hide *;
    var output: seq<Byte> := [];
    ghost var seen: seq<Byte> := [];
    var i := 0;
    BehindTwice([], [], Stream(chunks));
    LastIs(output, LIMIT);
    assert chunks[0..] == chunks;
    while i < |chunks|
      invariant i <= |chunks|
      invariant output == Last(seen, LIMIT)
      invariant Stream(chunks) == Behind(seen, Stream(chunks[i..]))
    {
      StreamStep(chunks, i, seen);
      if chunks[i].Failed? {
        return Err(chunks[i].code);
      }
      var bytes := chunks[i].bytes;
      if bytes == [] {
        return Ok(output);
      }
      LastOfAppend(seen, bytes, LIMIT);
      output := output + bytes;
      LastIs(output, LIMIT);
      if |output| > LIMIT {
        output := output[|output| - LIMIT..];
      }
      seen := seen + bytes;
      i := i + 1;
    }
    StreamStep(chunks, i, seen);
    result := Ok(output);
  }

  lemma LimitIs()
    ensures LIMIT == 16_384
  {
  }

  lemma StreamStep(chunks: seq<Chunk>, i: nat, seen: seq<Byte>)
    requires i <= |chunks|
    ensures Behind(seen, Stream(chunks[i..]))
         == if i == |chunks| || chunks[i] == Data([]) then Ok(seen)
            else if chunks[i].Failed? then Err(chunks[i].code)
            else Behind(seen + chunks[i].bytes, Stream(chunks[i + 1..]))
  {
    assert seen + [] == seen;
    if i < |chunks| {
      assert chunks[i..][0] == chunks[i] && chunks[i..][1..] == chunks[i + 1..];
      if chunks[i].Data? {
        BehindTwice(seen, chunks[i].bytes, Stream(chunks[i + 1..]));
      }
    }
  }

  lemma LastIs<T>(s: seq<T>, n: nat)
    ensures |s| > n ==> Last(s, n) == s[|s| - n..]
    ensures |s| <= n ==> Last(s, n) == s
  {
  }

  /** Bytes cut into pieces in any way and delivered piece by piece are a stream of just these bytes. */
  lemma {:induction false} CuttingDoesNotMatter(cuts: seq<seq<Byte>>)
    requires forall cut <- cuts :: cut != []
    ensures Stream(AsReads(cuts)) == Ok(Concatenated(cuts))
  {
    if cuts != [] {
      assert cuts[0] in cuts;
      assert forall cut <- cuts[1..] :: cut in cuts;
      CuttingDoesNotMatter(cuts[1..]);
      assert AsReads(cuts)[1..] == AsReads(cuts[1..]);
    } else {
      assert AsReads(cuts)[1..] == [];
    }
  }

  /** The chunks that deliver the pieces of a stream one by one, and then its end. */
  function AsReads(cuts: seq<seq<Byte>>): seq<Chunk> {
    if cuts == [] then [Data([])] else [Data(cuts[0])] + AsReads(cuts[1..])
  }

  function Concatenated(cuts: seq<seq<Byte>>): seq<Byte> {
    if cuts == [] then [] else cuts[0] + Concatenated(cuts[1..])
  }
}
