/**
 * The signature block of a certified device: one writer and three readers written separately.
 * It starts at byte 512 of the raw disk: a big-endian length, then two base64 texts joined by `|`.
 */
module SignedBlock {
  import opened Bytes
  import opened Wrappers
  import opened Base64

  type Text = seq<byte>

  const OFFSET := 512
  const MAX_TEXT := 7684
  const READ_SIZE := 8192
  const BAR: byte := 0x7C
  const DIGIT_ZERO: byte := 0x30

  /** The largest post-quantum signature whose block the readers accept. */
  const MAX_PQ := 5694

  datatype Pair = Pair(classic: seq<byte>, pq: seq<byte>)

  // ---------------------------------------------------------------- text

  function Render(p: Pair): Text {
    Encode(p.classic) + [BAR] + Encode(p.pq)
  }

  /** The parts between separators; at least one. */
  function Parts(s: Text): (parts: seq<Text>)
    ensures |parts| >= 1
    decreases |s|
  {
    if s == [] then [[]]
    else
      var rest := Parts(s[1..]);
      if s[0] == BAR then [[]] + rest else [[s[0]] + rest[0]] + rest[1..]
  }

  predicate Continuation(s: Text, k: nat, low: int, high: int) {
    k < |s| && low <= s[k] <= high
  }

  /** Well-formed UTF-8. */
  predicate Utf8(s: Text)
    decreases |s|
  {
    if s == [] then true
    else if s[0] < 0x80 then Utf8(s[1..])
    else if 0xC2 <= s[0] <= 0xDF then Continuation(s, 1, 0x80, 0xBF) && Utf8(s[2..])
    else if 0xE0 <= s[0] <= 0xEF then
      && Continuation(s, 1, if s[0] == 0xE0 then 0xA0 else 0x80, if s[0] == 0xED then 0x9F else 0xBF)
      && Continuation(s, 2, 0x80, 0xBF) && Utf8(s[3..])
    else if 0xF0 <= s[0] <= 0xF4 then
      && Continuation(s, 1, if s[0] == 0xF0 then 0x90 else 0x80, if s[0] == 0xF4 then 0x8F else 0xBF)
      && Continuation(s, 2, 0x80, 0xBF) && Continuation(s, 3, 0x80, 0xBF) && Utf8(s[4..])
    else false
  }

  /**
   * The two decoded signatures. The station insists on exactly two parts, the daemon ignores
   * further ones; `limit` is the longest signature the post-quantum scheme takes.
   */
  function ParsePair(text: Text, exact: bool, limit: nat): Result<Pair> {
    var parts := Parts(text);
    if |parts| < 2 || (exact && |parts| != 2) then Err
    else
      var classic, pq := Decode(parts[0]), Decode(parts[1]);
      if classic.None? || |classic.value| != 64 || pq.None? || |pq.value| > limit then Err
      else Ok(Pair(classic.value, pq.value))
  }

  // ---------------------------------------------------------------- disk

  predicate Readable(disk: Text, n: nat) { OFFSET + 4 + n <= |disk| }

  function StoredSize(disk: Text): int
    requires Readable(disk, 0)
  {
    BeValue(disk[OFFSET..OFFSET + 4])
  }

  function StoredText(disk: Text): Text
    requires Readable(disk, 0) && Readable(disk, StoredSize(disk))
  {
    disk[OFFSET + 4..OFFSET + 4 + StoredSize(disk)]
  }

  /** Reader of the station. */
  function StationRead(disk: Text, limit: nat): Result<Pair> {
    if !Readable(disk, 0) || StoredSize(disk) > MAX_TEXT || !Readable(disk, StoredSize(disk)) then Err
    else if !Utf8(StoredText(disk)) then Err
    else ParsePair(StoredText(disk), true, limit)
  }

  /** Reader of the Linux daemon: `None` is an unsigned device, an error drops the event. */
  function LinuxRead(disk: Text): Result<Option<Text>> {
    if !Readable(disk, 0) then Err
    else if StoredSize(disk) > MAX_TEXT then Ok(None)
    else if !Readable(disk, StoredSize(disk)) || !Utf8(StoredText(disk)) then Err
    else Ok(Some(StoredText(disk)))
  }

  /** Reader of the Windows daemon. */
  function WindowsRead(disk: Text): Result<Option<Text>> {
    if !Readable(disk, 0) then Err
    else if StoredSize(disk) == 0 || StoredSize(disk) > MAX_TEXT then Ok(None)
    else if !Readable(disk, StoredSize(disk)) || !Utf8(StoredText(disk)) then Err
    else Ok(Some(StoredText(disk)))
  }

  /** `data` written over the bytes from `at` on, as far as the disk goes. */
  function Overwritten(disk: Text, at: nat, data: Text): (r: Text)
    ensures |r| == |disk|
  {
    if at + |data| <= |disk| then disk[..at] + data + disk[at + |data|..]
    else if at <= |disk| then disk[..at] + data[..|disk| - at]
    else disk
  }

  function Block(text: Text): Text {
    BeBytes(|text| % U32_LIMIT) + text
  }

  class BlockDevice {
    const data: array<byte>
    var pos: nat

    constructor (data: array<byte>)
      ensures this.data == data && pos == 0
    {
      this.data := data;
      pos := 0;
    }

    method Seek(at: nat)
      modifies this
      ensures pos == at
    {
      pos := at;
    }

    /** Writes up to the end of the device, and fails when that is too early. */
    method WriteAll(bytes: Text) returns (ok: bool)
      modifies this, data
      ensures data[..] == Overwritten(old(data[..]), old(pos), bytes)
      ensures ok <==> bytes == [] || old(pos) + |bytes| <= data.Length
      ensures ok ==> pos == old(pos) + |bytes|
    {
      var i := 0;
      while i < |bytes| && pos + i < data.Length
        invariant i <= |bytes| && (i == 0 || pos + i <= data.Length) && pos == old(pos)
        invariant forall k :: 0 <= k < data.Length ==>
                    data[k] == if pos <= k < pos + i then bytes[k - pos] else old(data[k])
      {
        data[pos + i] := bytes[i];
        i := i + 1;
      }
      ok := i == |bytes|;
      pos := pos + i;
      assert data[..] == Overwritten(old(data[..]), old(pos), bytes);
    }

    method ReadExact(n: nat) returns (r: Result<Text>)
      modifies this
      ensures r == if n == 0 || old(pos) + n <= data.Length then Ok(if n == 0 then [] else data[old(pos)..old(pos) + n]) else Err
      ensures r.Ok? ==> pos == old(pos) + n
    {
      if n == 0 {
        return Ok([]);
      }
      if pos + n > data.Length {
        return Err;
      }
      r := Ok(data[pos..pos + n]);
      pos := pos + n;
    }

    /** One read into a fixed buffer: as many bytes as there are, up to its size. */
    method ReadInto(buf: array<byte>) returns (n: nat)
      requires buf != data
      modifies this, buf
      ensures n == if old(pos) > data.Length then 0 else if data.Length - old(pos) < buf.Length then data.Length - old(pos) else buf.Length
      ensures n > 0 ==> buf[..n] == data[old(pos)..old(pos) + n]
      ensures data[..] == old(data[..])
    {
      n := 0;
      while n < buf.Length && pos + n < data.Length
        invariant n <= buf.Length && (n == 0 || pos + n <= data.Length) && pos == old(pos)
        invariant forall k :: 0 <= k < n ==> buf[k] == data[pos + k]
        invariant data[..] == old(data[..])
      {
        buf[n] := data[pos + n];
        n := n + 1;
      }
      pos := pos + n;
    }

    /** The signer, after it has made the two signatures. */
    method SignUsb(p: Pair) returns (ok: bool)
      modifies this, data
      ensures ok <==> Readable(old(data[..]), |Render(p)|)
      ensures ok ==> data[..] == Overwritten(old(data[..]), OFFSET, Block(Render(p)))
    {
      ok := WriteBlock(Encode(p.classic) + [BAR] + Encode(p.pq));
    }

    method RevokeDevice() returns (ok: bool)
      modifies this, data
      ensures ok <==> Readable(old(data[..]), 7683)
      ensures ok ==> data[..] == Overwritten(old(data[..]), OFFSET, Block(Blank()))
    {
      ok := WriteBlock(seq(7683, _ => DIGIT_ZERO));
    }

    method WriteBlock(text: Text) returns (ok: bool)
      modifies this, data
      ensures ok <==> Readable(old(data[..]), |text|)
      ensures ok ==> data[..] == Overwritten(old(data[..]), OFFSET, Block(text))
    {
      hide LeBytes, BeBytes;
      Seek(OFFSET);
      ok := WriteAll(BeBytes(|text| % U32_LIMIT));
      if !ok {
        return;
      }
      ok := WriteAll(text);
      if ok {
        OverwrittenTwice(old(data[..]), OFFSET, BeBytes(|text| % U32_LIMIT), text);
      }
    }

    method GetSignature(limit: nat) returns (r: Result<Pair>)
      modifies this
      ensures r == StationRead(data[..], limit)
    {
      hide BeValue, LeValue, Utf8, ParsePair;
      Seek(OFFSET);
      var size := ReadExact(4);
      if size.Err? {
        return Err;
      }
      assert data[OFFSET..OFFSET + 4] == data[..][OFFSET..OFFSET + 4];
      var n := BeValue(size.value);
      if n > MAX_TEXT {
        return Err;
      }
      var text := ReadExact(n);
      if text.Err? {
        return Err;
      }
      assert text.value == data[..][OFFSET + 4..OFFSET + 4 + n];
      if !Utf8(text.value) {
        return Err;
      }
      return ParsePair(text.value, true, limit);
    }

    method ExtractUsbInfo() returns (r: Result<Option<Text>>)
      modifies this
      ensures r == LinuxRead(data[..])
    {
      hide BeValue, LeValue, Utf8;
      Seek(OFFSET);
      var size := ReadExact(4);
      if size.Err? {
        return Err;
      }
      assert data[OFFSET..OFFSET + 4] == data[..][OFFSET..OFFSET + 4];
      var n := BeValue(size.value);
      if n <= MAX_TEXT {
        var text := ReadExact(n);
        if text.Err? {
          return Err;
        }
        assert text.value == data[..][OFFSET + 4..OFFSET + 4 + n];
        return if Utf8(text.value) then Ok(Some(text.value)) else Err;
      } else {
        return Ok(None);
      }
    }

    method ReadSignature() returns (r: Result<Option<Text>>)
      modifies this
      ensures r == WindowsRead(data[..])
    {
      hide BeValue, LeValue, Utf8;
      var buf := new byte[READ_SIZE](_ => 0);
      Seek(OFFSET);
      var bytesRead := ReadInto(buf);
      assert data[..] == old(data[..]);
      assert bytesRead > 0 ==> buf[..bytesRead] == data[..][OFFSET..OFFSET + bytesRead];
      if bytesRead < 4 {
        return Err;
      }
      var size := buf[0..4];
      SliceOfSlice(data[..], OFFSET, OFFSET + bytesRead, 0, 4);
      assert size == buf[..bytesRead][0..4];
      var n := BeValue(size);
      if n == 0 || n > MAX_TEXT {
        return Ok(None);
      }
      var end := 4 + n;
      if end > bytesRead {
        return Err;
      }
      var text := buf[4..end];
      SliceOfSlice(data[..], OFFSET, OFFSET + bytesRead, 4, end);
      assert text == buf[..bytesRead][4..end];
      return if Utf8(text) then Ok(Some(text)) else Err;
    }
  }

  /** What a revoked device holds. */
  function Blank(): Text {
    seq(7683, _ => DIGIT_ZERO)
  }

  lemma OverwrittenTwice(disk: Text, at: nat, a: Text, b: Text)
    requires at + |a| + |b| <= |disk|
    ensures Overwritten(Overwritten(disk, at, a), at + |a|, b) == Overwritten(disk, at, a + b)
  {}
}
