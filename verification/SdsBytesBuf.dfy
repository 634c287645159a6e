/** The growable byte buffer behind the wire format. */
module SdsBytesBuf {
  import opened Bits
  import opened LittleEndian
  import opened Codec

  // What reading does, as functions of what is left to read

  /** The bytes from the cursor to the end; or the cursor stands one past the end, where the source's
      unsigned subtraction wraps and any further read leaves the buffer. */
  datatype Tail = Tail(bytes: Bytes) | PastEnd

  function ReadBytesAt(held: Bytes, t: Tail): Read<Tail, Bytes> {
    if t.PastEnd? then Read(Overrun, held, t)
    else if |t.bytes| >= |held| then Read(Good, t.bytes[..|held|], Tail(t.bytes[|held|..]))
    else Read(Good, held, t)
  }

  /** A little-endian number, and 0 when too few bytes are left. */
  function ReadUintAt(width: nat, t: Tail): (r: Read<Tail, nat>)
    ensures r.value < Pow2(8 * width)
  {
    if t.Tail? && |t.bytes| >= width then
      FromLEBound(t.bytes[..width]);
      Read(Good, FromLE(t.bytes[..width]), Tail(t.bytes[width..]))
    else Read(if t.PastEnd? then Overrun else Good, 0, t)
  }

  /** How far `readString` looks: it never tests the first byte for NUL. */
  function StringLength(s: Bytes, len: nat): (r: nat)
    requires len <= |s|
    ensures len <= r <= |s|
    decreases |s| - len
  {
    if len == |s| then len
    else if len > 0 && s[len] == 0 then len
    else StringLength(s, len + 1)
  }

  function ReadStringAt(t: Tail): Read<Tail, Bytes> {
    if t.PastEnd? then Read(Overrun, [], t)
    else
      var len := StringLength(t.bytes, 0);
      Read(Good, t.bytes[..len], if len < |t.bytes| then Tail(t.bytes[len + 1..]) else PastEnd)
  }

  /** The string that `readString` finds at `o`: up to the first NUL behind its first byte, or all that is
      left. */
  ghost predicate IsStringAt(b: Bytes, o: nat, s: Bytes) {
    && o + |s| <= |b| && s == b[o..o + |s|]
    && (forall k | 1 <= k < |s| :: s[k] != 0)
    && (o + |s| < |b| ==> s != [] && b[o + |s|] == 0)
  }

  lemma {:induction false} StringLengthMeans(s: Bytes, len: nat)
    requires len <= |s|
    ensures var r := StringLength(s, len);
            && (forall k | len <= k < r :: k == 0 || s[k] != 0)
            && (r < |s| ==> r > 0 && s[r] == 0)
    decreases |s| - len
  {
    if len < |s| && (len == 0 || s[len] != 0) {
      StringLengthMeans(s, len + 1);
    }
  }

  lemma StringThere(b: Bytes, o: nat, len: nat)
    requires o <= |b| && len == StringLength(b[o..], 0)
    ensures o + len <= |b| && IsStringAt(b, o, b[o..][..len])
    ensures o + len < |b| ==> b[o..][len + 1..] == b[o + len + 1..]
  {
    StringLengthMeans(b[o..], 0);
  }

  // What writing does

  /** `writeString`: the bytes of the string and a NUL. */
  function StringBytes(s: Bytes): Bytes {
    s + [0]
  }

  /** Strings that survive the wire: not empty, and no NUL but perhaps as first byte. */
  predicate WireSafe(s: Bytes) {
    s != [] && 0 !in s[1..]
  }

  lemma {:induction false} StringLengthFinds(s: Bytes, len: nat, k: nat)
    requires 0 < len <= k < |s| && s[k] == 0
    requires forall j | len <= j < k :: s[j] != 0
    ensures StringLength(s, len) == k
    decreases k - len
  {
    if len < k {
      StringLengthFinds(s, len + 1, k);
    }
  }

  lemma {:induction false} StringLengthStops(s: Bytes, len: nat, k: nat)
    requires 0 < k < |s| && s[k] == 0 && len <= k
    ensures StringLength(s, len) <= k
    decreases k - len
  {
    if len < k && (len == 0 || s[len] != 0) {
      StringLengthStops(s, len + 1, k);
    }
  }

  /** A written string is read back, up to its own end, exactly when it is not empty and has no NUL
      after its first byte. */
  lemma StringRoundTrip(s: Bytes, rest: Bytes)
    ensures var r := ReadStringAt(Tail(StringBytes(s) + rest));
            if WireSafe(s) then r == Read(Good, s, Tail(rest)) else r.value != s
  {
    var all := StringBytes(s) + rest;
    assert all[..|s|] == s && all[|s|] == 0 && all[|s| + 1..] == rest;
    if WireSafe(s) {
      forall j | 1 <= j < |s|
        ensures all[j] != 0
      {
        assert s[1..][j - 1] == all[j];
      }
      StringLengthFinds(all, 1, |s|);
    } else if s != [] {
      var j :| 0 <= j < |s[1..]| && s[1..][j] == 0;
      assert all[j + 1] == 0;
      StringLengthStops(all, 0, j + 1);
    }
  }

  lemma UintRoundTrip(n: nat, width: nat, rest: Bytes)
    requires n < Pow2(8 * width)
    ensures ReadUintAt(width, Tail(ToLE(n, width) + rest)) == Read(Good, n, Tail(rest))
  {
    AppendParts(ToLE(n, width), rest);
    FitsRoundTrip(n, width);
  }

  /** The number that is read has the bytes as its digits; with too few of them it is 0, and the cursor stays. */
  lemma UintMeans(width: nat, b: Bytes)
    ensures var r := ReadUintAt(width, Tail(b));
            && r.status == Good
            && if |b| < width then r.value == 0 && r.rest == Tail(b)
               else Digits(b[..width], r.value) && r.value < Pow2(8 * width) && r.rest == Tail(b[width..])
  {
    if |b| >= width {
      ValueIffDigits(b[..width], FromLE(b[..width]));
    }
  }

  lemma BytesRoundTrip(b: Bytes, held: Bytes, rest: Bytes)
    requires |held| == |b|
    ensures ReadBytesAt(held, Tail(b + rest)) == Read(Good, b, Tail(rest))
  {
    AppendParts(b, rest);
  }

  lemma DropTwice(s: Bytes, i: nat, j: nat)
    requires i + j <= |s|
    ensures s[i..][j..] == s[i + j..]
  {
  }

  lemma WindowOf(all: Bytes, size: nat, i: nat, n: nat)
    requires i + n <= size <= |all|
    ensures all[..size][i..][..n] == all[i..i + n]
  {
  }

  // Runs of writes, and the reads after a rewind

  /** A buffer between two calls. */
  datatype Snapshot = Snapshot(contents: Bytes, pos: nat, capacity: nat)

  const EMPTY_BUFFER := Snapshot([], 0, 0)

  /** What `write` does: it puts the bytes at the cursor, but lengthens the buffer by all of them. At the
      end of the buffer that is an append; after a rewind it overwrites what is there. */
  ghost predicate Wrote(s: Snapshot, input: Bytes, s': Snapshot) {
    && s.pos <= |s.contents| && |s'.contents| == |s.contents| + |input| <= s'.capacity
    && s'.pos == s.pos + |input|
    && s'.contents[..s'.pos] == s.contents[..s.pos] + input
    && (forall k | s'.pos <= k < |s.contents| :: s'.contents[k] == s.contents[k])
    && (s'.capacity == s.capacity || s'.capacity == |s'.contents| || s'.capacity < 2 * |s'.contents|)
  }

  /** A write as it shows in the whole block of memory, before and after. */
  lemma MakesWrote(s: Snapshot, input: Bytes, room: Bytes, room': Bytes, capacity: nat)
    requires s.pos <= |s.contents| && |s.contents| + |input| <= |room| == |room'| == capacity
    requires room[..|s.contents|] == s.contents
    requires room'[..s.pos] == room[..s.pos] && room'[s.pos..s.pos + |input|] == input
    requires room'[s.pos + |input|..] == room[s.pos + |input|..]
    requires capacity == s.capacity || capacity == |s.contents| + |input| || capacity < 2 * (|s.contents| + |input|)
    ensures Wrote(s, input, Snapshot(room'[..|s.contents| + |input|], s.pos + |input|, capacity))
  {
    var after, at, end := room'[..|s.contents| + |input|], s.pos, s.pos + |input|;
    assert after[..end] == room'[..end] == room'[..at] + room'[at..end];
    assert room[..at] == s.contents[..at];
    forall k | end <= k < |s.contents|
      ensures after[k] == s.contents[k]
    {
      assert after[k] == room'[end..][k - end] == room[end..][k - end] == room[..|s.contents|][k];
    }
  }

  lemma WroteAtEnd(s: Snapshot, input: Bytes, s': Snapshot)
    requires Wrote(s, input, s') && s.pos == |s.contents|
    ensures s'.contents == s.contents + input && s'.pos == |s'.contents|
  {
    assert s.contents[..s.pos] == s.contents && s'.contents[..s'.pos] == s'.contents;
  }

  /** What the typed calls write and read. */
  datatype Field = Raw(bytes: Bytes) | Number(n: nat, width: nat) | Text(s: Bytes)

  function FieldBytes(f: Field): Bytes {
    match f
    case Raw(bytes) => bytes
    case Number(n, width) => ToLE(n, width)
    case Text(s) => StringBytes(s)
  }

  /** The call that reads a field like `f`: as many bytes, a number as wide, or a string. */
  function ReadLike(f: Field, t: Tail): Read<Tail, Field> {
    match f
    case Raw(bytes) =>
      var r := ReadBytesAt(seq(|bytes|, _ => 0), t);
      Read(r.status, Raw(r.value), r.rest)
    case Number(_, width) =>
      var r := ReadUintAt(width, t);
      Read(r.status, Number(r.value, width), r.rest)
    case Text(_) =>
      var r := ReadStringAt(t);
      Read(r.status, Text(r.value), r.rest)
  }

  /** One such call after the other. */
  function ReadAllLike(fs: seq<Field>, t: Tail): Read<Tail, seq<Field>> {
    if fs == [] then Read(Good, [], t)
    else
      var x := ReadLike(fs[0], t);
      if x.status != Good then Read(x.status, [], x.rest)
      else
        var r := ReadAllLike(fs[1..], x.rest);
        Read(r.status, [x.value] + r.value, r.rest)
  }

  predicate Survives(f: Field) {
    match f
    case Raw(_) => true
    case Number(n, width) => n < Pow2(8 * width)
    case Text(s) => WireSafe(s)
  }

  lemma FieldRoundTrip(f: Field, rest: Bytes)
    ensures var r := ReadLike(f, Tail(FieldBytes(f) + rest));
            if Survives(f) then r == Read(Good, f, Tail(rest)) else r.value != f
  {
    match f
    case Raw(bytes) => BytesRoundTrip(bytes, seq(|bytes|, _ => 0), rest);
    case Number(n, width) =>
      if n < Pow2(8 * width) {
        UintRoundTrip(n, width, rest);
      }
    case Text(s) => StringRoundTrip(s, rest);
  }

  /** Fields are read back in order, up to their own end, exactly when each of them survives. */
  lemma {:induction false} FieldsRoundTrip(fs: seq<Field>, rest: Bytes)
    ensures var r := ReadAllLike(fs, Tail(WriteMany(FieldBytes, fs) + rest));
            if (forall f | f in fs :: Survives(f)) then r == Read(Good, fs, Tail(rest)) else r.value != fs
  {
    if fs == [] {
      assert [] + rest == rest;
    } else {
      var after := WriteMany(FieldBytes, fs[1..]) + rest;
      WrittenFirst(FieldBytes, fs, rest);
      FieldRoundTrip(fs[0], after);
      FieldsRoundTrip(fs[1..], rest);
      assert fs == [fs[0]] + fs[1..];
      var x := ReadLike(fs[0], Tail(FieldBytes(fs[0]) + after));
      if x.status == Good {
        var r := ReadAllLike(fs[1..], x.rest);
        assert ([x.value] + r.value)[0] == x.value && ([x.value] + r.value)[1..] == r.value;
      }
    }
  }

  /** A history of typed writes from the empty buffer. Writing no bytes does nothing. */
  ghost predicate IsWriteRun(states: seq<Snapshot>, fs: seq<Field>) {
    && |states| == |fs| + 1 && states[0] == EMPTY_BUFFER
    && forall k | 0 <= k < |fs| ::
         if FieldBytes(fs[k]) == [] then states[k + 1] == states[k] else Wrote(states[k], FieldBytes(fs[k]), states[k + 1])
  }

  /** Until the first rewind the buffer is an append-only sequence: it holds all that was written, through
      every growth, with the cursor at the end and within the capacity. */
  lemma {:induction false} RunAppends(states: seq<Snapshot>, fs: seq<Field>, k: nat)
    requires IsWriteRun(states, fs) && k <= |fs|
    ensures states[k].contents == WriteMany(FieldBytes, fs[..k])
    ensures states[k].pos == |states[k].contents| <= states[k].capacity
  {
    if k > 0 {
      RunAppends(states, fs, k - 1);
      var none: Bytes := [];
      NextWritten(FieldBytes, none, fs, k - 1);
      AppendNone(WriteMany(FieldBytes, fs[..k - 1]), WriteMany(FieldBytes, fs[..k]), FieldBytes(fs[k - 1]));
      if FieldBytes(fs[k - 1]) != [] {
        WroteAtEnd(states[k - 1], FieldBytes(fs[k - 1]), states[k]);
      }
    }
  }

  lemma AppendNone(a: Bytes, b: Bytes, c: Bytes)
    requires [] + a + c == [] + b
    ensures a + c == b && (c == [] ==> a == b)
  {
    assert [] + a == a && [] + b == b;
  }

  /** After a rewind, reading field by field gives back all that was written in order and consumes it,
      exactly when every field survives. */
  lemma RunReadsBack(states: seq<Snapshot>, fs: seq<Field>)
    requires IsWriteRun(states, fs)
    ensures var r := ReadAllLike(fs, Tail(states[|fs|].contents));
            if (forall f | f in fs :: Survives(f)) then r == Read(Good, fs, Tail([])) else r.value != fs
  {
    RunAppends(states, fs, |fs|);
    assert fs[..|fs|] == fs && WriteMany(FieldBytes, fs) + [] == WriteMany(FieldBytes, fs);
    FieldsRoundTrip(fs, []);
  }

  /** Some number of doublings, none or more. */
  ghost predicate IsDoubled(capacity: nat, wider: nat) {
    exists k: nat :: wider == capacity * Pow2(k)
  }

  lemma OnceMore(capacity: nat, wider: nat)
    ensures IsDoubled(capacity, capacity)
    ensures IsDoubled(capacity, wider) ==> IsDoubled(capacity, wider * 2)
  {
    assert capacity == capacity * Pow2(0);
    if IsDoubled(capacity, wider) {
      var k: nat :| wider == capacity * Pow2(k);
      MulAssociates(capacity, Pow2(k), 2);
      assert Pow2(k + 1) == Pow2(k) * 2;
      assert wider * 2 == capacity * Pow2(k + 1);
    }
  }

  // The class

  class SdsBytesBuf {
    var buffer: array?<byte>
    var capacity: nat
    var bufferSize: nat
    var pos: nat

    ghost predicate Valid()
      reads this, buffer
    {
      && pos <= bufferSize + 1
      && (buffer == null ==> bufferSize == 0)
      && (buffer != null ==> buffer.Length == capacity && bufferSize <= capacity)
    }

    /** A buffer that doubling can enlarge: the loop of `resize` never ends on capacity 0. */
    ghost predicate Growable()
      reads this
    {
      buffer != null ==> capacity > 0
    }

    /** The state in which messages are written: the cursor at the end. */
    ghost predicate Appending()
      reads this, buffer
    {
      Valid() && Growable() && pos == bufferSize
    }

    ghost function Contents(): Bytes
      requires Valid()
      reads this, buffer
    {
      if buffer == null then [] else buffer[..bufferSize]
    }

    ghost function Now(): Snapshot
      requires Valid()
      reads this, buffer
    {
      Snapshot(Contents(), pos, capacity)
    }

    ghost function Left(): Tail
      requires Valid()
      reads this, buffer
    {
      if pos <= bufferSize then Tail(Contents()[pos..]) else PastEnd
    }

    constructor ()
      ensures Valid() && Growable() && buffer == null && Now() == EMPTY_BUFFER
    {
      buffer, capacity, bufferSize, pos := null, 0, 0, 0;
    }

    /** `SdsBytesBuf(inp, size)` writes the bytes, which leaves the cursor behind them. */
    constructor From(inp: Bytes)
      ensures Valid() && Contents() == inp && Left() == Tail([])
      ensures inp != [] ==> Appending()
    {
      buffer, capacity, bufferSize, pos := null, 0, 0, 0;
      new;
      Write(inp);
    }

    method Allocate(size: nat)
      requires Valid() && buffer == null
      modifies this
      ensures Valid() && fresh(buffer) && capacity == size && pos == old(pos) && bufferSize == 0
      ensures Contents() == old(Contents())
    {
      capacity := size;
      buffer := new byte[size](_ => 0);
    }

    /** Makes room for `size` bytes. The capacity at least doubles when it changes, and never
        exceeds twice what was asked for. */
    method Resize(size: nat)
      requires Valid() && Growable()
      modifies this
      ensures Valid() && buffer != null && size <= capacity && pos == old(pos) && bufferSize == old(bufferSize)
      ensures buffer == old(buffer) || fresh(buffer)
      ensures Contents() == old(Contents())
      ensures capacity == old(capacity) || capacity < 2 * size || capacity == size
      ensures old(buffer) == null ==> capacity == size
      ensures old(buffer) != null ==> IsDoubled(old(capacity), capacity)
      ensures size > 0 || old(buffer) != null ==> Growable()
    {
      OnceMore(capacity, capacity);
      if buffer != null {
        if capacity < size {
          var wider := Doubled(capacity, size);
          Reallocate(wider);
        }
      } else {
        Allocate(size);
      }
    }

    /** The loop of `resize`. */
    static method Doubled(capacity: nat, size: nat) returns (wider: nat)
      requires 0 < capacity < size
      ensures size <= wider < 2 * size && IsDoubled(capacity, wider)
    {
      wider := capacity;
      OnceMore(capacity, capacity);
      while wider < size
        invariant 0 < wider < 2 * size && IsDoubled(capacity, wider)
      {
        OnceMore(capacity, wider);
        wider := wider * 2;
      }
    }

    /** `realloc`: keeps the bytes. */
    method Reallocate(wider: nat)
      requires Valid() && buffer != null && capacity <= wider
      modifies this
      ensures Valid() && fresh(buffer) && capacity == wider && pos == old(pos) && bufferSize == old(bufferSize)
      ensures Contents() == old(Contents())
    {
      var moved: array<byte> := new byte[wider](_ => 0);
      var held := buffer;
      for i := 0 to capacity
        modifies moved
        invariant moved[..i] == held[..i]
      {
        moved[i] := held[i];
      }
      assert moved[..bufferSize] == moved[..capacity][..bufferSize];
      buffer, capacity := moved, wider;
    }

    method Rewind()
      requires Valid()
      modifies `pos
      ensures Valid() && pos == 0 && Left() == Tail(Contents())
    {
      pos := 0;
    }

    /** `write`, at the cursor. */
    method Write(input: Bytes)
      requires Valid() && Growable() && pos <= bufferSize
      modifies this, buffer
      ensures Valid() && buffer != null && (buffer == old(buffer) || fresh(buffer))
      ensures Wrote(old(Now()), input, Now()) && pos <= bufferSize
      ensures pos == old(pos) + |input| && bufferSize == old(bufferSize) + |input|
      ensures Contents()[..pos] == old(Contents()[..pos]) + input
      ensures old(pos) == old(bufferSize) ==> pos == bufferSize && Contents() == old(Contents()) + input
      ensures input != [] || old(buffer) != null ==> Growable()
    {
      ghost var before := Now();
      Resize(bufferSize + |input|);
      ghost var room := buffer[..];
      CopyInto(buffer, pos, input);
      pos := pos + |input|;
      bufferSize := bufferSize + |input|;
      MakesWrote(before, input, room, buffer[..], capacity);
      if before.pos == |before.contents| {
        WroteAtEnd(before, input, Now());
      }
    }

    /** `memcpy`. */
    static method CopyInto(target: array<byte>, at: nat, input: Bytes)
      requires at + |input| <= target.Length
      modifies target
      ensures target[..at] == old(target[..at]) && target[at..at + |input|] == input
      ensures target[at + |input|..] == old(target[at + |input|..])
    {
      for i := 0 to |input|
        invariant forall k | 0 <= k < target.Length ::
                    target[k] == if at <= k < at + i then input[k - at] else old(target[k])
      {
        target[at + i] := input[i];
      }
    }

    /** `read` into a field or variable that holds `held`: all of it or nothing. */
    method ReadBytes(held: Bytes) returns (out: Bytes)
      requires Valid() && pos <= bufferSize
      modifies `pos
      ensures Valid() && Contents() == old(Contents())
      ensures Read(Good, out, Left()) == ReadBytesAt(held, old(Left()))
      ensures if old(pos) + |held| <= bufferSize then out == Contents()[old(pos)..pos] && pos == old(pos) + |held|
              else out == held && pos == old(pos)
    {
      ghost var left := Contents()[pos..];
      if |held| == 0 {
        assert left[..0] == held && left[0..] == left;
        return held;
      }
      if bufferSize - pos < |held| {
        return held;
      }
      out := buffer[pos..pos + |held|];
      WindowOf(buffer[..], bufferSize, pos, |held|);
      DropTwice(Contents(), pos, |held|);
      pos := pos + |held|;
    }

    method WriteBytes(input: Bytes)
      requires Valid() && Growable() && pos <= bufferSize
      modifies this, buffer
      ensures Valid() && Growable() && pos <= bufferSize && (buffer == old(buffer) || fresh(buffer))
      ensures if input == [] then Now() == old(Now()) else Wrote(old(Now()), input, Now())
      ensures old(Appending()) ==> Appending() && Contents() == old(Contents()) + input
    {
      if |input| != 0 {
        Write(input);
      }
    }

    /** `writeUint8` to `writeUint64`. */
    method WriteUint(n: nat, width: nat)
      requires Valid() && Growable() && pos <= bufferSize && 0 < width && n < Pow2(8 * width)
      modifies this, buffer
      ensures Valid() && Growable() && pos <= bufferSize && (buffer == old(buffer) || fresh(buffer))
      ensures Wrote(old(Now()), ToLE(n, width), Now())
      ensures old(Appending()) ==> Appending() && Contents() == old(Contents()) + ToLE(n, width)
    {
      var le := ToLE(n, width);
      Write(le);
    }

    /** `readUint8` to `readUint64`. */
    method ReadUint(width: nat) returns (n: nat)
      requires Valid() && pos <= bufferSize
      modifies `pos
      ensures Valid() && Contents() == old(Contents())
      ensures Read(Good, n, Left()) == ReadUintAt(width, old(Left()))
    {
      var le := ReadBytes(seq(width, _ => 0));
      n := FromLE(le);
      ZerosValue(width);
    }

    lemma {:induction false} ZerosValue(width: nat)
      ensures FromLE(seq(width, _ => 0)) == 0
    {
      if width > 0 {
        var s: Bytes := seq(width, _ => 0);
        assert s[1..] == seq(width - 1, _ => 0);
        ZerosValue(width - 1);
      }
    }

    method WriteString(s: Bytes)
      requires Valid() && Growable() && pos <= bufferSize
      modifies this, buffer
      ensures Valid() && Growable() && pos <= bufferSize && (buffer == old(buffer) || fresh(buffer))
      ensures Wrote(old(Now()), StringBytes(s), Now())
      ensures old(Appending()) ==> Appending() && Contents() == old(Contents()) + StringBytes(s)
    {
      Write(s + [0]);
    }

    /** `readString`: without a NUL it takes all that is left and moves the cursor one past the end. */
    method ReadString() returns (s: Bytes)
      requires Valid() && pos <= bufferSize
      modifies `pos
      ensures Valid() && Contents() == old(Contents())
      ensures Read(Good, s, Left()) == ReadStringAt(old(Left()))
      ensures IsStringAt(Contents(), old(pos), s) && pos == old(pos) + |s| + 1
    {
      ghost var left := Contents()[pos..];
      var len := 0;
      s := [];
      if buffer != null {
        len := ScanString(buffer, pos, bufferSize);
        s := buffer[pos..pos + len];
        WindowOf(buffer[..], bufferSize, pos, bufferSize - pos);
        WindowOf(buffer[..], bufferSize, pos, len);
      }
      StringThere(Contents(), pos, len);
      pos := pos + len + 1;
    }

    /** The loop of `readString` counts from 0, but tests for NUL only from the second byte on. */
    static method ScanString(bytes: array<byte>, from: nat, end: nat) returns (len: nat)
      requires from <= end <= bytes.Length
      ensures len == StringLength(bytes[from..end], 0)
    {
      len := 0;
      ghost var left := bytes[from..end];
      while len < end - from
        invariant 0 <= len <= |left|
        invariant StringLength(left, 0) == StringLength(left, len)
        invariant len == 0 || len == |left| || left[len] != 0
      {
        len := len + 1;
        if len < end - from && bytes[from + len] == 0 {
          break;
        }
      }
    }
  }
}
