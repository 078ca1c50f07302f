/** The weekly schedule wire format of the HY316WW: the schedule payload that
    follows the 10-byte frame preamble interleaves placeholder bytes with real
    schedule bytes. Decoding packs the real bytes into the schedule store,
    encoding spreads the store back out with the placeholders zeroed. */
module ScheduleCodec {
  import opened Types
  import CommandBytes

  /** Bytes before the payload in every frame. */
  const HeaderLength: nat := 10
  /** Payload offsets the decoder reads. */
  const DecodedPayloadLength: nat := 32
  /** Declared length the decoder accepts, and the length byte the encoder writes. */
  const ScheduleDataLength: byte := 0x0D
  /** Store bytes the decoder fills. */
  const DecodedStoreLength: nat := 24
  /** Store bytes the encoder sends. */
  const EncodedStoreLength: nat := 33
  /** The function-length byte the encoder writes at frame offset 9. */
  const FunctionLength: byte := 0x09

  /** Data offsets the encoder writes: three per scheduling slot plus eight. */
  function EncodedPayloadLength(): (n: nat)
    ensures n == 44
  {
    CommandBytes.SchedulingDays * 3 + 8
  }

  /** Length of the outbound schedule frame as transmitted. */
  function FrameLength(): (n: nat)
    ensures n == 54
  {
    HeaderLength + EncodedPayloadLength()
  }

  /** Payload offset i holds a device placeholder, in the form the firmware
      tests it: offset 2, and every later offset with (i + 2) % 4 == 0. */
  predicate IsPlaceholder(i: int)
    ensures IsPlaceholder(i) ==> 2 <= i
  {
    i == 2 || (i > 2 && (i + 2) % 4 == 0)
  }

  /** The placeholders are exactly the non-negative offsets congruent to 2
      modulo 4; offsets 0 and 1 are data. */
  lemma PlaceholderIsResidueTwo(i: nat)
    ensures IsPlaceholder(i) <==> i % 4 == 2
  {
  }

  /** Number of data (non-placeholder) offsets below n: where the n-th payload
      offset's byte lands in the schedule store. */
  function KeptCount(n: nat): (k: nat)
    ensures k <= n
    ensures 0 < n ==> 0 < k
  {
    if n == 0 then 0 else KeptCount(n - 1) + (if IsPlaceholder(n - 1) then 0 else 1)
  }

  /** Closed form: one offset in every four below n + 1 is a placeholder. */
  lemma {:induction false} KeptCountClosedForm(n: nat)
    ensures KeptCount(n) == n - (n + 1) / 4
  {
    if n > 0 {
      KeptCountClosedForm(n - 1);
      PlaceholderIsResidueTwo(n - 1);
    }
  }

  /** KeptCount never decreases, and grows strictly past every data offset,
      so packing preserves the order of the data bytes. */
  lemma {:induction false} KeptCountMonotone(i: nat, j: nat)
    requires i <= j
    ensures KeptCount(i) <= KeptCount(j)
    ensures i < j && !IsPlaceholder(i) ==> KeptCount(i) < KeptCount(j)
  {
    if i < j {
      KeptCountMonotone(i, j - 1);
    }
  }

  /** The decode direction: drop the placeholder offsets of a payload and keep
      the other bytes, in order. */
  function Pack(p: seq<byte>): (r: seq<byte>)
    ensures |r| == KeptCount(|p|)
    decreases |p|
  {
    if |p| == 0 then []
    else Pack(p[..|p| - 1]) + (if IsPlaceholder(|p| - 1) then [] else [p[|p| - 1]])
  }

  /** Packing one more payload offset appends its byte unless it is a placeholder. */
  lemma PackStep(p: seq<byte>, i: nat)
    requires i < |p|
    ensures Pack(p[..i + 1]) == Pack(p[..i]) + (if IsPlaceholder(i) then [] else [p[i]])
  {
    assert p[..i + 1][..i] == p[..i];
  }

  /** Every data offset i of the payload lands at store position KeptCount(i). */
  lemma {:induction false} PackAt(p: seq<byte>, i: nat)
    requires i < |p| && !IsPlaceholder(i)
    ensures KeptCount(i) < |Pack(p)|
    ensures Pack(p)[KeptCount(i)] == p[i]
  {
    var q := p[..|p| - 1];
    if i < |p| - 1 {
      PackAt(q, i);
      assert q[i] == p[i];
    }
  }

  /** Every store position k produced by Pack comes from some data offset. */
  lemma {:induction false} PackFrom(p: seq<byte>, k: nat)
    requires k < |Pack(p)|
    ensures exists i :: 0 <= i < |p| && !IsPlaceholder(i) && KeptCount(i) == k && Pack(p)[k] == p[i]
  {
    var q := p[..|p| - 1];
    if k < |Pack(q)| {
      PackFrom(q, k);
      var i :| 0 <= i < |q| && !IsPlaceholder(i) && KeptCount(i) == k && Pack(q)[k] == q[i];
      assert Pack(p)[k] == p[i];
    } else {
      assert Pack(p)[k] == p[|p| - 1];
    }
  }

  /** The encode direction: a payload of n offsets whose placeholder offsets
      are zero and whose data offsets take the store's bytes in order. */
  function Spread(s: seq<byte>, n: nat): (r: seq<byte>)
    requires KeptCount(n) <= |s|
    ensures |r| == n
  {
    if n == 0 then []
    else
      KeptCountMonotone(n - 1, n);
      Spread(s, n - 1) + [if IsPlaceholder(n - 1) then 0 else s[KeptCount(n - 1)]]
  }

  /** Offset by offset, the spread payload is zero at placeholders and the
      next store byte elsewhere. */
  lemma {:induction false} SpreadAt(s: seq<byte>, n: nat, i: nat)
    requires KeptCount(n) <= |s| && i < n
    ensures KeptCount(i) <= KeptCount(n)
    ensures !IsPlaceholder(i) ==> KeptCount(i) < KeptCount(n)
    ensures Spread(s, n)[i] == if IsPlaceholder(i) then 0 else s[KeptCount(i)]
  {
    KeptCountMonotone(i, n);
    KeptCountMonotone(n - 1, n);
    if i < n - 1 {
      SpreadAt(s, n - 1, i);
    }
  }

  /** A shorter spread is a prefix of a longer one. */
  lemma {:induction false} SpreadPrefix(s: seq<byte>, m: nat, n: nat)
    requires m <= n && KeptCount(n) <= |s|
    ensures KeptCount(m) <= KeptCount(n)
    ensures Spread(s, n)[..m] == Spread(s, m)
  {
    KeptCountMonotone(m, n);
    forall i | 0 <= i < m
      ensures Spread(s, n)[i] == Spread(s, m)[i]
    {
      SpreadAt(s, n, i);
      SpreadAt(s, m, i);
    }
  }

  /** Only the first KeptCount(n) store bytes matter to a spread of n offsets. */
  lemma {:induction false} SpreadIgnoresTail(s: seq<byte>, t: seq<byte>, n: nat)
    requires KeptCount(n) <= |s|
    ensures KeptCount(n) <= |s + t|
    ensures Spread(s + t, n) == Spread(s, n)
  {
    if n > 0 {
      KeptCountMonotone(n - 1, n);
      SpreadIgnoresTail(s, t, n - 1);
    }
  }

  /** Decoding an encoded payload gives back the store bytes it consumed. */
  lemma {:induction false} PackSpread(s: seq<byte>, n: nat)
    requires KeptCount(n) <= |s|
    ensures Pack(Spread(s, n)) == s[..KeptCount(n)]
  {
    if n > 0 {
      KeptCountMonotone(n - 1, n);
      var e := Spread(s, n);
      assert e[..n - 1] == Spread(s, n - 1);
      PackSpread(s, n - 1);
      assert Pack(e) == Pack(e[..n - 1]) + (if IsPlaceholder(n - 1) then [] else [e[n - 1]]);
      if !IsPlaceholder(n - 1) {
        assert e[n - 1] == s[KeptCount(n - 1)];
        assert s[..KeptCount(n - 1) + 1] == s[..KeptCount(n - 1)] + [s[KeptCount(n - 1)]];
      }
    }
  }

  /** A payload whose placeholder offsets are all zero. */
  predicate ZeroPlaceholders(p: seq<byte>)
  {
    forall i :: 0 <= i < |p| && IsPlaceholder(i) ==> p[i] == 0
  }

  /** Encoding a decoded payload gives back the payload, when its placeholders
      are zero (the only information decoding drops). */
  lemma SpreadPack(p: seq<byte>)
    requires ZeroPlaceholders(p)
    ensures Spread(Pack(p), |p|) == p
  {
    var e := Spread(Pack(p), |p|);
    forall i | 0 <= i < |p|
      ensures e[i] == p[i]
    {
      SpreadAt(Pack(p), |p|, i);
      if !IsPlaceholder(i) {
        PackAt(p, i);
      }
    }
  }

  /** The payload offsets the decoder skips are exactly 2, 6, ..., 30. */
  lemma DecoderSkips()
    ensures forall i :: 0 <= i < DecodedPayloadLength ==>
      (IsPlaceholder(i) <==> i in {2, 6, 10, 14, 18, 22, 26, 30})
  {
  }

  /** The decoder keeps the other 24 offsets: its cursor ends at 24. */
  lemma DecoderKeeps()
    ensures KeptCount(DecodedPayloadLength) == DecodedStoreLength
  {
    KeptCountClosedForm(DecodedPayloadLength);
  }

  /** The encoder consumes 33 store bytes, spread over 44 data offsets with 11
      placeholders. */
  lemma EncoderConsumes()
    ensures KeptCount(EncodedPayloadLength()) == EncodedStoreLength
  {
    KeptCountClosedForm(EncodedPayloadLength());
  }

  /** The schedule store after decoding the 32-byte payload p into store s:
      the packed payload overwrites the front of the store, the rest stays. */
  function DecodedStore(s: seq<byte>, p: seq<byte>): (r: seq<byte>)
    requires |p| == DecodedPayloadLength && DecodedStoreLength <= |s|
    ensures |r| == |s|
    ensures r[DecodedStoreLength..] == s[DecodedStoreLength..]
  {
    DecoderKeeps();
    Pack(p) + s[DecodedStoreLength..]
  }

  /** After decoding, each kept payload byte sits at its store position below
      24. */
  lemma DecodedStoreAt(s: seq<byte>, p: seq<byte>, i: nat)
    requires |p| == DecodedPayloadLength && DecodedStoreLength <= |s|
    requires i < |p| && !IsPlaceholder(i)
    ensures KeptCount(i) < DecodedStoreLength
    ensures DecodedStore(s, p)[KeptCount(i)] == p[i]
  {
    DecoderKeeps();
    PackAt(p, i);
  }

  /** Whether decoding p into s changes some stored byte (the decoder's
      `changed` flag). */
  predicate DecodeChanges(s: seq<byte>, p: seq<byte>)
    requires |p| == DecodedPayloadLength && DecodedStoreLength <= |s|
    ensures !DecodeChanges(s, p) ==> Pack(p) == s[..DecodedStoreLength]
  {
    DecoderKeeps();
    assert DecodedStore(s, p)[..DecodedStoreLength] == Pack(p);
    DecodedStore(s, p) != s
  }

  /** Decoding changes the store exactly when the packed payload differs from
      the store's first 24 bytes. */
  lemma DecodeChangesIff(s: seq<byte>, p: seq<byte>)
    requires |p| == DecodedPayloadLength && DecodedStoreLength <= |s|
    ensures DecodeChanges(s, p) <==> Pack(p) != s[..DecodedStoreLength]
  {
    DecoderKeeps();
    assert s == s[..DecodedStoreLength] + s[DecodedStoreLength..];
    if Pack(p) + s[DecodedStoreLength..] == s {
      assert Pack(p) == (Pack(p) + s[DecodedStoreLength..])[..DecodedStoreLength];
    }
  }

  /** Two equally long sequences extended by one element each differ exactly
      when the prefixes or the new elements differ. */
  lemma SnocDiffers(a: seq<byte>, b: seq<byte>, x: byte, y: byte)
    requires |a| == |b|
    ensures a + [x] != b + [y] <==> a != b || x != y
  {
    if a + [x] == b + [y] {
      assert a == (a + [x])[..|a|] && b == (b + [y])[..|b|];
      assert x == (a + [x])[|a|];
    }
  }

  /** The store once the decoder has consumed the first i payload offsets:
      their data bytes packed at the front, the old bytes behind them. */
  function DecodedPrefix(s: seq<byte>, p: seq<byte>, i: nat): seq<byte>
    requires i <= |p| && KeptCount(i) <= |s|
  {
    Pack(p[..i]) + s[KeptCount(i)..]
  }

  /** Whether the first i payload offsets changed some stored byte. */
  predicate PrefixChanged(s: seq<byte>, p: seq<byte>, i: nat)
    requires i <= |p| && KeptCount(i) <= |s|
  {
    Pack(p[..i]) != s[..KeptCount(i)]
  }

  /** Overwriting the first element after a prefix. */
  lemma UpdateAfterPrefix(a: seq<byte>, b: seq<byte>, x: byte)
    requires |b| > 0
    ensures (a + b)[|a| := x] == a + ([x] + b[1..])
  {
  }

  /** One step of the decoder's loop at a data offset: the byte is written at
      the cursor, over the old byte still there. */
  lemma DecodeDataStep(s: seq<byte>, p: seq<byte>, i: nat)
    requires |p| == DecodedPayloadLength && DecodedStoreLength <= |s| && i < |p|
    requires !IsPlaceholder(i)
    ensures KeptCount(i + 1) == KeptCount(i) + 1 <= DecodedStoreLength
    ensures DecodedPrefix(s, p, i)[KeptCount(i)] == s[KeptCount(i)]
    ensures DecodedPrefix(s, p, i + 1) == DecodedPrefix(s, p, i)[KeptCount(i) := p[i]]
  {
    DecoderKeeps();
    KeptCountMonotone(i + 1, DecodedPayloadLength);
    PackStep(p, i);
    var k := KeptCount(i);
    UpdateAfterPrefix(Pack(p[..i]), s[k..], p[i]);
    assert s[k..][1..] == s[k + 1..];
  }

  /** The decoder's change flag at a data offset: raised when the old byte at
      the cursor differs from the payload byte. */
  lemma DecodeChangeStep(s: seq<byte>, p: seq<byte>, i: nat)
    requires |p| == DecodedPayloadLength && DecodedStoreLength <= |s| && i < |p|
    requires !IsPlaceholder(i)
    ensures KeptCount(i) < DecodedStoreLength
    ensures PrefixChanged(s, p, i + 1) <==> PrefixChanged(s, p, i) || p[i] != s[KeptCount(i)]
  {
    DecoderKeeps();
    KeptCountMonotone(i + 1, DecodedPayloadLength);
    PackStep(p, i);
    var k := KeptCount(i);
    assert s[..k + 1] == s[..k] + [s[k]];
    SnocDiffers(Pack(p[..i]), s[..k], p[i], s[k]);
  }

  /** One step of the decoder's loop at a placeholder: nothing changes. */
  lemma DecodeSkipStep(s: seq<byte>, p: seq<byte>, i: nat)
    requires |p| == DecodedPayloadLength && DecodedStoreLength <= |s| && i < |p|
    requires IsPlaceholder(i)
    ensures KeptCount(i + 1) == KeptCount(i) <= DecodedStoreLength
    ensures DecodedPrefix(s, p, i + 1) == DecodedPrefix(s, p, i)
    ensures PrefixChanged(s, p, i + 1) <==> PrefixChanged(s, p, i)
  {
    DecoderKeeps();
    KeptCountMonotone(i + 1, DecodedPayloadLength);
    PackStep(p, i);
  }

  /** After all 32 offsets the running state is the decoder's result. */
  lemma DecodeDone(s: seq<byte>, p: seq<byte>)
    requires |p| == DecodedPayloadLength && DecodedStoreLength <= |s|
    ensures KeptCount(|p|) <= |s|
    ensures DecodedPrefix(s, p, |p|) == DecodedStore(s, p)
    ensures PrefixChanged(s, p, |p|) <==> DecodeChanges(s, p)
  {
    DecoderKeeps();
    assert p[..|p|] == p;
    DecodeChangesIff(s, p);
  }

  /** Decoding the same payload twice: the second pass changes nothing and so
      does not notify. */
  lemma DecodeIdempotent(s: seq<byte>, p: seq<byte>)
    requires |p| == DecodedPayloadLength && DecodedStoreLength <= |s|
    ensures DecodedStore(DecodedStore(s, p), p) == DecodedStore(s, p)
    ensures !DecodeChanges(DecodedStore(s, p), p)
  {
    DecoderKeeps();
  }

  /** The fixed first ten bytes of an outbound schedule frame. */
  function ScheduleHeader(): (h: seq<byte>)
    ensures |h| == HeaderLength
    ensures h[6] == CommandBytes.Schedules && h[5] == ScheduleDataLength && h[9] == FunctionLength
  {
    [0x55, 0xaa, 0x03, 0x07, 0x00, ScheduleDataLength, CommandBytes.Schedules, 0x00, 0x00, FunctionLength]
  }

  /** The outbound schedule frame for store s (with the buffer sized as
      intended: header plus every data offset the encoder writes). */
  function EncodeFrame(s: seq<byte>): (f: seq<byte>)
    requires EncodedStoreLength <= |s|
    ensures |f| == FrameLength()
    ensures f[..HeaderLength] == ScheduleHeader()
  {
    EncoderConsumes();
    ScheduleHeader() + Spread(s, EncodedPayloadLength())
  }

  /** The byte the encoder writes at data offset i: zero at a placeholder,
      the store byte at the cursor elsewhere. */
  function DataByte(s: seq<byte>, i: nat): byte
    requires EncodedStoreLength <= |s| && i < EncodedPayloadLength()
  {
    EncoderConsumes();
    KeptCountMonotone(i, EncodedPayloadLength());
    if IsPlaceholder(i) then 0 else s[KeptCount(i)]
  }

  /** A 54-byte frame with the schedule header and DataByte at every data
      offset is the encoded frame. */
  lemma FrameFromBytes(f: seq<byte>, s: seq<byte>)
    requires EncodedStoreLength <= |s| && |f| == FrameLength()
    requires f[..HeaderLength] == ScheduleHeader()
    requires forall k :: 0 <= k < EncodedPayloadLength() ==> f[HeaderLength + k] == DataByte(s, k)
    ensures f == EncodeFrame(s)
  {
    EncoderConsumes();
    forall k | 0 <= k < EncodedPayloadLength()
      ensures f[HeaderLength + k] == Spread(s, EncodedPayloadLength())[k]
    {
      SpreadAt(s, EncodedPayloadLength(), k);
      assert f[HeaderLength + k] == DataByte(s, k);
    }
    assert f == f[..HeaderLength] + f[HeaderLength..];
  }

  /** Layout of the outbound schedule frame: 54 bytes, header 55 aa 03 07 00
      0D 77 00 00 09, then zero at every placeholder data offset and the store
      bytes s[0..32] in order at the others. */
  lemma EncodeFrameLayout(s: seq<byte>)
    requires EncodedStoreLength <= |s|
    ensures |EncodeFrame(s)| == FrameLength()
    ensures EncodeFrame(s)[..HeaderLength] == [0x55, 0xaa, 0x03, 0x07, 0x00, 0x0D, 0x77, 0x00, 0x00, 0x09]
    ensures forall i :: 0 <= i < EncodedPayloadLength() ==>
      (!IsPlaceholder(i) ==> KeptCount(i) < EncodedStoreLength) &&
      EncodeFrame(s)[HeaderLength + i] == if IsPlaceholder(i) then 0 else s[KeptCount(i)]
  {
    EncoderConsumes();
    forall i | 0 <= i < EncodedPayloadLength()
      ensures !IsPlaceholder(i) ==> KeptCount(i) < EncodedStoreLength
      ensures EncodeFrame(s)[HeaderLength + i] == if IsPlaceholder(i) then 0 else s[KeptCount(i)]
    {
      SpreadAt(s, EncodedPayloadLength(), i);
      KeptCountMonotone(i, EncodedPayloadLength());
    }
  }

  /** Round trip: decoding (into any store) the payload of a frame the encoder
      built from s restores s[0..23] byte for byte. */
  lemma DecodeOfEncode(s: seq<byte>, store: seq<byte>)
    requires EncodedStoreLength <= |s| && DecodedStoreLength <= |store|
    ensures |EncodeFrame(s)| >= HeaderLength + DecodedPayloadLength
    ensures DecodedStore(store, EncodeFrame(s)[HeaderLength..HeaderLength + DecodedPayloadLength])[..DecodedStoreLength] == s[..DecodedStoreLength]
  {
    EncoderConsumes();
    DecoderKeeps();
    var f := EncodeFrame(s);
    var p := f[HeaderLength..HeaderLength + DecodedPayloadLength];
    SpreadPrefix(s, DecodedPayloadLength, EncodedPayloadLength());
    assert p == Spread(s, EncodedPayloadLength())[..DecodedPayloadLength];
    PackSpread(s, DecodedPayloadLength);
  }

  /** Encoding a decoded store reproduces the decoded payload (when its
      placeholders were zero) in the first 32 data offsets. */
  lemma EncodeOfDecode(s: seq<byte>, p: seq<byte>)
    requires |p| == DecodedPayloadLength && EncodedStoreLength <= |s| && ZeroPlaceholders(p)
    ensures |EncodeFrame(DecodedStore(s, p))| >= HeaderLength + DecodedPayloadLength
    ensures EncodeFrame(DecodedStore(s, p))[HeaderLength..HeaderLength + DecodedPayloadLength] == p
  {
    EncoderConsumes();
    DecoderKeeps();
    var d := DecodedStore(s, p);
    assert d == Pack(p) + s[DecodedStoreLength..];
    SpreadPrefix(d, DecodedPayloadLength, EncodedPayloadLength());
    SpreadIgnoresTail(Pack(p), s[DecodedStoreLength..], DecodedPayloadLength);
    SpreadPack(p);
    var e := Spread(d, EncodedPayloadLength());
    assert EncodeFrame(d) == ScheduleHeader() + e;
    assert EncodeFrame(d)[HeaderLength..HeaderLength + DecodedPayloadLength] == e[..DecodedPayloadLength];
  }

  /** The buffer `schedulesToMcu` declares, as written: its size is taken
      from the slot count before the eight extra data offsets are added. */
  function AsWrittenBufferLength(): (n: nat)
    ensures n + 8 == FrameLength()
  {
    CommandBytes.SchedulingDays * 3 + HeaderLength
  }

  /** Whether the encoder's write of data offset i stays inside the buffer as
      written. */
  predicate AsWrittenWriteInBounds(i: nat)
  {
    HeaderLength + i < AsWrittenBufferLength()
  }

  /** As written, the encoder overflows its buffer: of the 44 data offsets it
      writes, offsets 36..43 (frame indices 46..53) lie past the 46-byte buffer,
      and the 54 bytes it transmits run 8 bytes past it too. */
  lemma AsWrittenEncoderOverflows()
    ensures AsWrittenBufferLength() == 46
    ensures forall i: nat :: i < EncodedPayloadLength() ==> (AsWrittenWriteInBounds(i) <==> i < 36)
    ensures !AsWrittenWriteInBounds(EncodedPayloadLength() - 1)
    ensures FrameLength() == AsWrittenBufferLength() + 8
  {
  }
}
