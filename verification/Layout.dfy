/** Where fields lie in a run of bytes. */
module Layout {
  import opened Bits
  import opened LittleEndian
  import opened Codec

  ghost predicate BytesAt(b: Bytes, o: nat, part: Bytes) {
    o + |part| <= |b| && b[o..o + |part|] == part
  }

  /** A number of `width` bytes, least significant first. */
  ghost predicate NumberAt(b: Bytes, o: nat, width: nat, n: int) {
    o + width <= |b| && Digits(b[o..o + width], n)
  }

  /** A string and the NUL behind it. */
  ghost predicate TextAt(b: Bytes, o: nat, s: Bytes) {
    o + |s| < |b| && b[o..o + |s|] == s && b[o + |s|] == 0
  }

  lemma BytesParts(b: Bytes, o: nat, x: Bytes, y: Bytes)
    ensures BytesAt(b, o, x + y) <==> BytesAt(b, o, x) && BytesAt(b, o + |x|, y)
  {
    var z := x + y;
    assert z[..|x|] == x && z[|x|..] == y;
    if o + |z| <= |b| {
      var window := b[o..o + |z|];
      assert window[..|x|] == b[o..o + |x|] && window[|x|..] == b[o + |x|..o + |z|];
      assert window == window[..|x|] + window[|x|..];
    }
  }

  lemma NumberIff(b: Bytes, o: nat, width: nat, n: nat)
    ensures NumberAt(b, o, width, n) <==> BytesAt(b, o, ToLE(n, width))
  {
    if o + width <= |b| {
      UnsignedIffDigits(b[o..o + width], n);
    }
  }

  lemma SignedIff(b: Bytes, o: nat, width: nat, n: int)
    ensures NumberAt(b, o, width, n) <==> BytesAt(b, o, SignedToLE(n, width))
  {
    if o + width <= |b| {
      SignedIffDigits(b[o..o + width], n);
    }
  }

  lemma TextIff(b: Bytes, o: nat, s: Bytes)
    ensures TextAt(b, o, s) <==> BytesAt(b, o, s + [0])
  {
    BytesParts(b, o, s, [0]);
    ByteIff(b, o + |s|, 0);
  }

  lemma ByteIff(b: Bytes, o: nat, k: byte)
    ensures o < |b| && b[o] == k <==> BytesAt(b, o, [k])
  {
    if o < |b| {
      assert b[o..o + 1] == [b[o]];
    }
  }

  /** Reading from `o` on sees the part first. */
  lemma TailAt(b: Bytes, o: nat, part: Bytes)
    requires BytesAt(b, o, part)
    ensures b[o..] == part + b[o + |part|..]
  {
  }

  // Runs of items

  /** The items one after the other from `o` on, if `at` says what one looks like and `size` how long it is. */
  ghost predicate RunAt<T>(at: (Bytes, nat, T) -> bool, size: T -> nat, b: Bytes, o: nat, xs: seq<T>)
    decreases |xs|
  {
    if xs == [] then o <= |b| else at(b, o, xs[0]) && RunAt(at, size, b, o + size(xs[0]), xs[1..])
  }

  function RunSize<T>(size: T -> nat, xs: seq<T>): nat {
    if xs == [] then 0 else size(xs[0]) + RunSize(size, xs[1..])
  }

  /** An item looks so exactly where its `form` stands. */
  ghost predicate ItemIff<T>(at: (Bytes, nat, T) -> bool, size: T -> nat, form: T -> Bytes, b: Bytes, o: nat, x: T) {
    |form(x)| == size(x) && (at(b, o, x) <==> BytesAt(b, o, form(x)))
  }

  lemma {:induction false} RunIff<T>(at: (Bytes, nat, T) -> bool, size: T -> nat, form: T -> Bytes,
                                     b: Bytes, o: nat, xs: seq<T>)
    requires forall i: nat, x :: ItemIff(at, size, form, b, i, x)
    ensures |WriteMany(form, xs)| == RunSize(size, xs)
    ensures RunAt(at, size, b, o, xs) <==> BytesAt(b, o, WriteMany(form, xs))
    decreases |xs|
  {
    if xs != [] {
      var x := xs[0];
      assert ItemIff(at, size, form, b, o, x);
      RunIff(at, size, form, b, o + size(x), xs[1..]);
      BytesParts(b, o, form(x), WriteMany(form, xs[1..]));
    }
  }

  lemma {:induction false} RunSizeAdds<T>(size: T -> nat, xs: seq<T>, ys: seq<T>)
    ensures RunSize(size, xs + ys) == RunSize(size, xs) + RunSize(size, ys)
  {
    if xs == [] {
      assert xs + ys == ys;
    } else {
      assert (xs + ys)[1..] == xs[1..] + ys;
      RunSizeAdds(size, xs[1..], ys);
    }
  }
}
