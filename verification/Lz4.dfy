/** The LZ4 block decoder of the web client (RemoteDesktop/WebClient/lz4dec.js) against
    the LZ4 block format. */
module Lz4 {
  import opened ByteCode

  const MIN_MATCH := 4

  /** A block is a list of literal runs, each but perhaps the last one followed by a
      match: `length` bytes from `offset` bytes back. */
  datatype Item = Match(literals: seq<Byte>, offset: nat, length: nat) | Last(literals: seq<Byte>)

  // ----- what a block means

  /** A match is copied byte by byte, so it may overlap what it produces. */
  function CopyMatch(out: seq<Byte>, offset: nat, n: nat): (r: seq<Byte>)
    requires 1 <= offset <= |out|
    ensures |r| == |out| + n
    decreases n
  {
    if n == 0 then out
    else
      var s := CopyMatch(out, offset, n - 1);
      s + [s[|s| - offset]]
  }

  function Apply(out: seq<Byte>, item: Item): seq<Byte>
    requires Fits(out, item)
  {
    match item
    case Match(literals, offset, length) => CopyMatch(out + literals, offset, length)
    case Last(literals) => out + literals
  }

  predicate Fits(out: seq<Byte>, item: Item) {
    item.Match? ==> 1 <= item.offset <= |out| + |item.literals| && item.offset < 0x10000 && item.length >= MIN_MATCH
  }

  /** Only the last item may be without a match. */
  predicate WellFormed(out: seq<Byte>, items: seq<Item>)
    decreases |items|
  {
    items != [] ==>
      && Fits(out, items[0]) && (items[0].Last? ==> |items| == 1)
      && WellFormed(Apply(out, items[0]), items[1..])
  }

  function Meaning(out: seq<Byte>, items: seq<Item>): (r: seq<Byte>)
    requires WellFormed(out, items)
    ensures |r| >= |out|
    decreases |items|
  {
    if items == [] then out else Meaning(Apply(out, items[0]), items[1..])
  }

  // ----- how it is written

  function Nibble(n: nat): nat {
    if n < 15 then n else 15
  }

  /** The bytes that carry the part of a length beyond 15. */
  function Extension(n: nat): seq<Byte> {
    if n < 15 then [] else ExtensionBytes(n - 15)
  }

  function ExtensionBytes(n: nat): (s: seq<Byte>)
    ensures s != []
  {
    if n < 255 then [n] else [255] + ExtensionBytes(n - 255)
  }

  function Written(item: Item): (s: seq<Byte>)
    requires item.Match? ==> item.offset < 0x10000 && item.length >= MIN_MATCH
    ensures s != []
  {
    var literals := item.literals;
    match item
    case Match(_, offset, length) =>
      [16 * Nibble(|literals|) + Nibble(length - MIN_MATCH)] + Extension(|literals|) + literals
      + [offset % 256, offset / 256] + Extension(length - MIN_MATCH)
    case Last(_) =>
      [16 * Nibble(|literals|)] + Extension(|literals|) + literals
  }

  function Serialised(out: seq<Byte>, items: seq<Item>): seq<Byte>
    requires WellFormed(out, items)
    decreases |items|
  {
    if items == [] then [] else Written(items[0]) + Serialised(Apply(out, items[0]), items[1..])
  }

  // ----- the three ways of copying a match

  /** An offset of one repeats a byte. */
  lemma {:induction false} FillIsCopy(out: seq<Byte>, n: nat)
    requires out != []
    ensures CopyMatch(out, 1, n) == out + Repeat(out[|out| - 1], n)
  {
    var b := out[|out| - 1];
    if n > 0 {
      FillIsCopy(out, n - 1);
      var s := CopyMatch(out, 1, n - 1);
      if n > 1 {
        RepeatAt(b, n - 1, n - 2);
      }
      assert s[|s| - 1] == b;
      assert out + Repeat(b, n - 1) + [b] == out + (Repeat(b, n - 1) + [b]);
    }
  }

  /** A match that does not reach its own output is a block copy. */
  lemma {:induction false} BlockCopyIsCopy(out: seq<Byte>, offset: nat, n: nat)
    requires 1 <= offset <= |out| && n <= offset
    ensures CopyMatch(out, offset, n) == out + out[|out| - offset..|out| - offset + n]
  {
    if n > 0 {
      BlockCopyIsCopy(out, offset, n - 1);
    }
  }

  /** dst.fill */
  method Fill(dst: array<Byte>, b: Byte, from: nat, to: nat)
    requires from <= to <= dst.Length
    modifies dst
    ensures dst[..to] == old(dst[..from]) + Repeat(b, to - from) && dst[to..] == old(dst[to..])
  {
    hide Repeat;
    RepeatNext(b, 0);
    for i := from to to
      invariant dst[..i] == old(dst[..from]) + Repeat(b, i - from)
      invariant dst[i..] == old(dst[i..])
    {
      RepeatNext(b, i - from);
      dst[i] := b;
      assert dst[..i + 1] == dst[..i] + [b];
    }
  }

  lemma {:induction false} RepeatNext(b: Byte, n: nat)
    ensures Repeat(b, n + 1) == Repeat(b, n) + [b] && Repeat(b, 0) == []
  {
  }

  /** dst.copyWithin: the source range is read before anything is written. */
  method CopyWithin(dst: array<Byte>, target: nat, start: nat, end: nat)
    requires start <= end <= dst.Length && target + (end - start) <= dst.Length
    modifies dst
    ensures dst[..] == old(dst[..target]) + old(dst[start..end]) + old(dst[target + (end - start)..])
  {
    forall i | target <= i < target + (end - start) {
      dst[i] := dst[i - target + start];
    }
  }

  /** The byte loop, which may read what it has just written. */
  method CopyBytes(dst: array<Byte>, dIndex: nat, offset: nat, length: nat)
    requires 1 <= offset <= dIndex && dIndex + length <= dst.Length
    modifies dst
    ensures dst[..dIndex + length] == CopyMatch(old(dst[..dIndex]), offset, length)
    ensures dst[dIndex + length..] == old(dst[dIndex + length..])
  {
    for k := 0 to length
      invariant dst[..dIndex + k] == CopyMatch(old(dst[..dIndex]), offset, k)
      invariant dst[dIndex + k..] == old(dst[dIndex + k..])
    {
      dst[dIndex + k] := dst[dIndex - offset + k];
      assert dst[..dIndex + k + 1] == dst[..dIndex + k] + [dst[dIndex + k]];
    }
  }

  lemma {:induction false} ThreeParts(all: seq<Byte>, a: seq<Byte>, b: seq<Byte>, c: seq<Byte>)
    requires all == a + b + c
    ensures all[..|a| + |b|] == a + b && all[|a| + |b|..] == c
  {
  }

  /** A match of `length` bytes at `dIndex`. */
  method CopyMatchInPlace(dst: array<Byte>, dIndex: nat, offset: nat, length: nat, hasCopyWithin: bool)
    requires 1 <= offset <= dIndex && dIndex + length <= dst.Length
    modifies dst
    ensures dst[..dIndex + length] == CopyMatch(old(dst[..dIndex]), offset, length)
    ensures dst[dIndex + length..] == old(dst[dIndex + length..])
  {
    hide Repeat;
    ghost var before, behind := dst[..dIndex], dst[dIndex + length..];
    if hasCopyWithin && offset == 1 {
      FillIsCopy(before, length);
      Fill(dst, dst[dIndex - 1], dIndex, dIndex + length);
    } else if hasCopyWithin && offset > length && length > 31 {
      BlockCopyIsCopy(before, offset, length);
      ghost var copied := before[dIndex - offset..dIndex - offset + length];
      assert copied == dst[dIndex - offset..dIndex - offset + length];
      CopyWithin(dst, dIndex, dIndex - offset, dIndex - offset + length);
      ThreeParts(dst[..], before, copied, behind);
    } else {
      CopyBytes(dst, dIndex, offset, length);
    }
  }

  // ----- the decoder

  /** Add up length bytes, as long as they are 255. */
  method ReadExtension(src: seq<Byte>, sIndex: nat, count: nat, ghost n: nat, ghost after: seq<Byte>)
    returns (total: nat, next: nat)
    requires sIndex <= |src| && src[sIndex..] == ExtensionBytes(n) + after
    ensures total == count + n && next <= |src| && src[next..] == after
  {
    total, next := count, sIndex;
    ghost var left := n;
    while true
      invariant next <= |src| && src[next..] == ExtensionBytes(left) + after && total + left == count + n
      decreases left
    {
      assert src[next] == ExtensionBytes(left)[0];
      total := total + src[next];
      next := next + 1;
      if src[next - 1] != 0xFF {
        assert src[next..] == after;
        break;
      }
      assert src[next..] == ExtensionBytes(left - 255) + after;
      left := left - 255;
    }
  }

  /** A whole block, its source length known. The bytes before `dIndex` may serve as
      history. */
  method DecompressBlock(src: seq<Byte>, dst: array<Byte>, sIndex: nat, sLength: nat, dIndex: nat, hasCopyWithin: bool,
                         ghost items: seq<Item>) returns (end: nat)
    requires dIndex <= dst.Length && sIndex + sLength <= |src|
    requires WellFormed(dst[..dIndex], items) && src[sIndex..sIndex + sLength] == Serialised(dst[..dIndex], items)
    requires |Meaning(dst[..dIndex], items)| <= dst.Length
    modifies dst
    ensures end <= dst.Length && dst[..end] == Meaning(old(dst[..dIndex]), items)
    ensures dst[end..] == old(dst[end..])
  {
    hide CopyMatch, Written;
    ghost var goal := Meaning(dst[..dIndex], items);
    ghost var input := src[..sIndex + sLength];
    var s: nat, d: nat := sIndex, dIndex;
    var sEnd := sIndex + sLength;
    ghost var left := items;
    assert input[s..] == src[s..sEnd];
    while s < sEnd
      invariant s <= sEnd == |input| && d <= dst.Length
      invariant WellFormed(dst[..d], left) && Meaning(dst[..d], left) == goal && input[s..] == Serialised(dst[..d], left)
      invariant dst[d..] == old(dst[d..])
      decreases |left|
    {
      s, d := DecompressItem(src[..sEnd], dst, s, d, hasCopyWithin, left[0], Serialised(Apply(dst[..d], left[0]), left[1..]));
      left := left[1..];
    }
    end := d;
  }

  /** The parts of an item as the decoder meets them. */
  lemma {:induction false} WrittenParts(item: Item, after: seq<Byte>)
    requires item.Match? ==> item.offset < 0x10000 && item.length >= MIN_MATCH
    ensures var low := if item.Match? then Nibble(item.length - MIN_MATCH) else 0;
            var token, m := 16 * Nibble(|item.literals|) + low, MatchPart(item);
            Written(item) + after == [token] + (Extension(|item.literals|) + (item.literals + (m + after)))
  {
    hide Extension;
    match item
    case Match(literals, offset, length) =>
      var e, o, x := Extension(|literals|), [offset % 256, offset / 256], Extension(length - MIN_MATCH);
      var token := 16 * Nibble(|literals|) + Nibble(length - MIN_MATCH);
      assert [token] + e + literals + o + x + after == [token] + (e + (literals + ((o + x) + after)));
    case Last(literals) =>
      var e := Extension(|literals|);
      assert [16 * Nibble(|literals|)] + e + literals + after == [16 * Nibble(|literals|)] + (e + (literals + ([] + after)));
  }

  function MatchPart(item: Item): seq<Byte>
    requires item.Match? ==> item.offset < 0x10000 && item.length >= MIN_MATCH
  {
    match item
    case Match(_, offset, length) => [offset % 256, offset / 256] + Extension(length - MIN_MATCH)
    case Last(_) => []
  }

  lemma {:induction false} Tail(s: seq<Byte>, p: nat, first: seq<Byte>, rest: seq<Byte>)
    requires p <= |s| && s[p..] == first + rest
    ensures p + |first| <= |s| && s[p + |first|..] == rest && s[p..p + |first|] == first
  {
    assert s[p + |first|..] == s[p..][|first|..];
    assert s[p..p + |first|] == s[p..][..|first|];
  }

  /** A nibble, and if it is 15 the bytes that extend it. */
  method ReadLength(src: seq<Byte>, sIndex: nat, nibble: nat, ghost n: nat, ghost after: seq<Byte>) returns (total: nat, next: nat)
    requires sIndex <= |src| && nibble == Nibble(n) && src[sIndex..] == Extension(n) + after
    ensures total == n && next <= |src| && src[next..] == after
  {
    hide ExtensionBytes;
    total, next := nibble, sIndex;
    if nibble == 15 {
      total, next := ReadExtension(src, sIndex, nibble, n - 15, after);
    }
  }

  method CopyLiterals(src: seq<Byte>, dst: array<Byte>, sIndex: nat, dIndex: nat, ghost literals: seq<Byte>, count: nat)
    requires sIndex + count <= |src| && dIndex + count <= dst.Length && src[sIndex..sIndex + count] == literals
    modifies dst
    ensures dst[..dIndex + count] == old(dst[..dIndex]) + literals
    ensures dst[dIndex + count..] == old(dst[dIndex + count..])
  {
    for k := 0 to count
      invariant dst[..dIndex + k] == old(dst[..dIndex]) + literals[..k]
      invariant dst[dIndex + k..] == old(dst[dIndex + k..])
    {
      assert src[sIndex..sIndex + count][k] == src[sIndex + k];
      dst[dIndex + k] := src[sIndex + k];
      assert dst[..dIndex + k + 1] == dst[..dIndex + k] + [dst[dIndex + k]];
      assert literals[..k + 1] == literals[..k] + [literals[k]];
    }
    assert literals[..count] == literals;
  }

  /** The literals announced by the high half of a token. */
  method DecompressLiterals(src: seq<Byte>, dst: array<Byte>, sIndex: nat, dIndex: nat, nibble: nat,
                            ghost literals: seq<Byte>, ghost rest: seq<Byte>) returns (s: nat, d: nat)
    requires dIndex + |literals| <= dst.Length && nibble == Nibble(|literals|)
    requires sIndex <= |src| && src[sIndex..] == Extension(|literals|) + (literals + rest)
    modifies dst
    ensures s <= |src| && src[s..] == rest && d == dIndex + |literals|
    ensures dst[..d] == old(dst[..dIndex]) + literals && dst[d..] == old(dst[d..])
  {
    hide Extension, Nibble;
    NibbleBounds(|literals|);
    s := sIndex;
    var literalCount := nibble;
    if literalCount > 0 {
      literalCount, s := ReadLength(src, s, literalCount, |literals|, literals + rest);
      Tail(src, s, literals, rest);
      CopyLiterals(src, dst, s, dIndex, literals, literalCount);
      s := s + literalCount;
    } else {
      NoLiterals(literals, rest);
    }
    d := dIndex + literalCount;
  }

  /** The match announced by the low half. */
  method DecompressMatch(src: seq<Byte>, dst: array<Byte>, sIndex: nat, dIndex: nat, nibble: nat, hasCopyWithin: bool,
                         ghost item: Item, ghost after: seq<Byte>) returns (s: nat, d: nat)
    requires item.Match? && 1 <= item.offset <= dIndex && item.offset < 0x10000 && item.length >= MIN_MATCH
    requires dIndex + item.length <= dst.Length && nibble == Nibble(item.length - MIN_MATCH)
    requires sIndex <= |src| && src[sIndex..] == MatchPart(item) + after
    modifies dst
    ensures s <= |src| && src[s..] == after && d == dIndex + item.length
    ensures dst[..d] == CopyMatch(old(dst[..dIndex]), item.offset, item.length) && dst[d..] == old(dst[d..])
  {
    hide CopyMatch, Extension, Nibble;
    ghost var two, x := [item.offset % 256, item.offset / 256], Extension(item.length - MIN_MATCH);
    assert two + x + after == two + (x + after);
    Tail(src, sIndex, two, x + after);
    assert src[sIndex..sIndex + 2][0] == src[sIndex] && src[sIndex..sIndex + 2][1] == src[sIndex + 1];
    var mOffset := src[sIndex] as int + 256 * (src[sIndex + 1] as int);
    var mLength;
    mLength, s := ReadLength(src, sIndex + 2, nibble, item.length - MIN_MATCH, after);
    mLength := mLength + MIN_MATCH;
    CopyMatchInPlace(dst, dIndex, mOffset, mLength, hasCopyWithin);
    d := dIndex + mLength;
  }

  /** One token, its literals, and its match if the block goes on. */
  method DecompressItem(src: seq<Byte>, dst: array<Byte>, sIndex: nat, dIndex: nat, hasCopyWithin: bool,
                        ghost item: Item, ghost after: seq<Byte>) returns (s: nat, d: nat)
    requires dIndex <= dst.Length && Fits(dst[..dIndex], item) && |Apply(dst[..dIndex], item)| <= dst.Length
    requires sIndex < |src| && src[sIndex..] == Written(item) + after && (item.Last? ==> after == [])
    modifies dst
    ensures s <= |src| && src[s..] == after
    ensures d <= dst.Length && dst[..d] == Apply(old(dst[..dIndex]), item)
    ensures dst[d..] == old(dst[d..])
  {
    hide CopyMatch, Written, Extension, Nibble, MatchPart;
    WrittenParts(item, after);
    NibbleBounds(|item.literals|);
    NibbleBounds(if item.Match? then item.length - MIN_MATCH else 0);
    MatchPartEmpty(item);
    var token := src[sIndex];
    Tail(src, sIndex, [token], Extension(|item.literals|) + (item.literals + (MatchPart(item) + after)));
    s, d := DecompressLiterals(src, dst, sIndex + 1, dIndex, token / 16, item.literals, MatchPart(item) + after);
    if s < |src| {
      s, d := DecompressMatch(src, dst, s, d, token % 16, hasCopyWithin, item, after);
    }
  }

  lemma {:induction false} MatchPartEmpty(item: Item)
    requires item.Match? ==> item.offset < 0x10000 && item.length >= MIN_MATCH
    ensures MatchPart(item) == [] <==> item.Last?
  {
  }

  lemma {:induction false} NibbleBounds(n: nat)
    ensures Nibble(n) <= 15 && (Nibble(n) == 0 ==> n == 0) && (Nibble(n) < 15 ==> Nibble(n) == n)
  {
  }

  lemma {:induction false} NoLiterals(literals: seq<Byte>, rest: seq<Byte>)
    requires literals == []
    ensures Extension(|literals|) + (literals + rest) == rest
  {
  }
}
