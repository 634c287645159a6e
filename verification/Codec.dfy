/** Reading and writing runs of items, for any item format. */
module Codec {
  import opened Bits

  /** `Bad` is a read that the source reports as failed; `Overrun` one that leaves the memory it may
      touch, after which the behaviour of the program is undefined. */
  datatype Status = Good | Bad | Overrun

  /** The outcome of a read: what was obtained and what is left to read. */
  datatype Read<S, T> = Read(status: Status, value: T, rest: S)

  /** A reading loop: up to `count` items appended to `read`, stopping at the first failure. */
  function ReadMany<S, T>(item: S -> Read<S, T>, count: int, read: seq<T>, input: S): Read<S, seq<T>>
    decreases count
  {
    if count <= 0 then Read(Good, read, input) else
      var x := item(input);
      if x.status != Good then Read(x.status, read, x.rest)
      else ReadMany(item, count - 1, read + [x.value], x.rest)
  }

  /** The step of a reading loop that goes well. */
  lemma NextRead<S, T>(item: S -> Read<S, T>, count: int, read: seq<T>, input: S)
    requires count > 0 && ReadMany(item, count, read, input).status == Good
    ensures item(input).status == Good
    ensures ReadMany(item, count, read, input)
            == ReadMany(item, count - 1, read + [item(input).value], item(input).rest)
  {
  }

  /** The loop itself. */
  method ReadLoop<S, T>(item: S -> Read<S, T>, count: int, input: S)
    returns (status: Status, read: seq<T>, rest: S)
    ensures Read(status, read, rest) == ReadMany(item, count, [], input)
  {
    read, rest := [], input;
    var j := 0;
    while j < count
      invariant j == 0 || j <= count
      invariant ReadMany(item, count, [], input) == ReadMany(item, count - j, read, rest)
    {
      var x := item(rest);
      rest := x.rest;
      if x.status != Good {
        return x.status, read, rest;
      }
      read := read + [x.value];
      j := j + 1;
    }
    status := Good;
  }

  function WriteMany<T>(item: T -> Bytes, xs: seq<T>): Bytes {
    if xs == [] then [] else item(xs[0]) + WriteMany(item, xs[1..])
  }

  lemma {:induction false} WriteManyAppend<T>(item: T -> Bytes, xs: seq<T>, x: T)
    ensures WriteMany(item, xs + [x]) == WriteMany(item, xs) + item(x)
  {
    if xs == [] {
      assert [x][1..] == [];
      assert item(x) + [] == [] + item(x);
    } else {
      assert (xs + [x])[1..] == xs[1..] + [x];
      WriteManyAppend(item, xs[1..], x);
    }
  }

  /** The step of a writing loop. */
  lemma NextWritten<T>(item: T -> Bytes, before: Bytes, xs: seq<T>, i: nat)
    requires i < |xs|
    ensures (before + WriteMany(item, xs[..i])) + item(xs[i]) == before + WriteMany(item, xs[..i + 1])
  {
    assert xs[..i + 1] == xs[..i] + [xs[i]];
    WriteManyAppend(item, xs[..i], xs[i]);
  }

  /** How an item format behaves on `x`: if `ok`, `reader` takes back what `writer` wrote, leaving
      `rest`; otherwise it fails or obtains something `wrong`. `at` makes the reader's input of the
      bytes that are left. */
  ghost predicate ItemRoundTrips<S, T>(reader: S -> Read<S, T>, at: Bytes -> S, writer: T -> Bytes, ok: bool,
                                       wrong: (T, T) -> bool, x: T, rest: Bytes) {
    var r := reader(at(writer(x) + rest));
    if ok then r == Read(Good, x, at(rest)) else r.status == Good ==> wrong(x, r.value)
  }

  ghost predicate SomeWrong<T>(wrong: (T, T) -> bool, xs: seq<T>, ys: seq<T>) {
    |xs| == |ys| && exists i | 0 <= i < |xs| :: wrong(xs[i], ys[i])
  }

  lemma {:induction false} ReadManyGrows<S, T>(item: S -> Read<S, T>, count: int, read: seq<T>, input: S)
    ensures read <= ReadMany(item, count, read, input).value
    ensures ReadMany(item, count, read, input).status == Good ==>
              |ReadMany(item, count, read, input).value| == |read| + if count < 0 then 0 else count
    decreases count
  {
    if count > 0 {
      var x := item(input);
      if x.status == Good {
        ReadManyGrows(item, count - 1, read + [x.value], x.rest);
      }
    }
  }

  lemma {:induction false} GoodRunRoundTrips<S, T>(reader: S -> Read<S, T>, at: Bytes -> S, writer: T -> Bytes,
                                                   wrong: (T, T) -> bool, xs: seq<T>, read: seq<T>, rest: Bytes)
    requires forall x, after | x in xs :: ItemRoundTrips(reader, at, writer, true, wrong, x, after)
    ensures ReadMany(reader, |xs|, read, at(WriteMany(writer, xs) + rest)) == Read(Good, read + xs, at(rest))
    decreases |xs|
  {
    if xs == [] {
      assert [] + rest == rest && read + [] == read;
    } else {
      var x, more := xs[0], xs[1..];
      WrittenFirst(writer, xs, rest);
      assert read + xs == (read + [x]) + more;
      assert ItemRoundTrips(reader, at, writer, true, wrong, x, WriteMany(writer, more) + rest);
      GoodRunRoundTrips(reader, at, writer, wrong, more, read + [x], rest);
    }
  }

  function Values<X, T>(value: X -> T, xs: seq<X>): seq<T> {
    seq(|xs|, i requires 0 <= i < |xs| => value(xs[i]))
  }

  /** A run of items is read as the values of the items, if each item is read as its value. */
  lemma {:induction false} RunReads<S, X, T>(reader: S -> Read<S, T>, at: Bytes -> S, writer: X -> Bytes, value: X -> T,
                                             xs: seq<X>, read: seq<T>, rest: Bytes)
    requires forall x, after | x in xs :: reader(at(writer(x) + after)) == Read(Good, value(x), at(after))
    ensures ReadMany(reader, |xs|, read, at(WriteMany(writer, xs) + rest)) == Read(Good, read + Values(value, xs), at(rest))
    decreases |xs|
  {
    if xs == [] {
      assert [] + rest == rest && read + Values(value, xs) == read;
    } else {
      var x, more := xs[0], xs[1..];
      WrittenFirst(writer, xs, rest);
      assert read + Values(value, xs) == (read + [value(x)]) + Values(value, more);
      assert reader(at(writer(x) + (WriteMany(writer, more) + rest))).status == Good;
      RunReads(reader, at, writer, value, more, read + [value(x)], rest);
    }
  }

  lemma WrittenFirst<T>(writer: T -> Bytes, xs: seq<T>, rest: Bytes)
    requires xs != []
    ensures WriteMany(writer, xs) + rest == writer(xs[0]) + (WriteMany(writer, xs[1..]) + rest)
  {
  }

  lemma {:induction false} BadRunShows<S, T>(reader: S -> Read<S, T>, at: Bytes -> S, writer: T -> Bytes,
                                             ok: T -> bool, wrong: (T, T) -> bool,
                                             xs: seq<T>, read: seq<T>, rest: Bytes)
    requires forall x, after | x in xs :: ItemRoundTrips(reader, at, writer, ok(x), wrong, x, after)
    requires exists x | x in xs :: !ok(x)
    ensures var r := ReadMany(reader, |xs|, read, at(WriteMany(writer, xs) + rest));
            r.status == Good ==> |r.value| >= |read| && SomeWrong(wrong, xs, r.value[|read|..])
    decreases |xs|
  {
    var x, more := xs[0], xs[1..];
    var after := WriteMany(writer, more) + rest;
    WrittenFirst(writer, xs, rest);
    assert ItemRoundTrips(reader, at, writer, ok(x), wrong, x, after);
    var r := reader(at(writer(x) + after));
    if r.status == Good {
      var all := ReadMany(reader, |more|, read + [r.value], r.rest);
      ReadManyGrows(reader, |more|, read + [r.value], r.rest);
      if ok(x) {
        BadRunShows(reader, at, writer, ok, wrong, more, read + [x], rest);
        if all.status == Good {
          WrongLater(wrong, xs, all.value, |read|);
        }
      } else if all.status == Good {
        assert (read + [r.value])[|read|] == r.value;
        assert wrong(xs[0], all.value[|read|..][0]);
      }
    }
  }

  /** A run of items is read back as written if each item is; otherwise the reading fails, or obtains
      something wrong in the place of some item. */
  lemma ManyRoundTrip<S, T>(reader: S -> Read<S, T>, at: Bytes -> S, writer: T -> Bytes,
                            ok: T -> bool, wrong: (T, T) -> bool,
                            xs: seq<T>, read: seq<T>, rest: Bytes)
    requires forall x, after | x in xs :: ItemRoundTrips(reader, at, writer, ok(x), wrong, x, after)
    ensures var r := ReadMany(reader, |xs|, read, at(WriteMany(writer, xs) + rest));
            if (forall x | x in xs :: ok(x)) then r == Read(Good, read + xs, at(rest))
            else r.status == Good ==> |r.value| >= |read| && SomeWrong(wrong, xs, r.value[|read|..])
  {
    if forall x | x in xs :: ok(x) {
      GoodRunRoundTrips(reader, at, writer, wrong, xs, read, rest);
    } else {
      BadRunShows(reader, at, writer, ok, wrong, xs, read, rest);
    }
  }

  lemma WrongLater<T>(wrong: (T, T) -> bool, xs: seq<T>, ys: seq<T>, n: nat)
    requires xs != [] && n < |ys| && SomeWrong(wrong, xs[1..], ys[n + 1..])
    ensures SomeWrong(wrong, xs, ys[n..])
  {
    var i :| 0 <= i < |xs[1..]| && wrong(xs[1..][i], ys[n + 1..][i]);
    assert wrong(xs[i + 1], ys[n..][i + 1]);
  }

  /** The verdict on `input` does not depend on what follows it, unless it is `Bad`. */
  ghost predicate Extends<T>(reader: Bytes -> Read<Bytes, T>, input: Bytes, more: Bytes) {
    var r, r' := reader(input), reader(input + more);
    && (r.status == Good ==> r' == Read(Good, r.value, r.rest + more))
    && (r.status == Overrun ==> r'.status == Overrun)
  }

  lemma {:induction false} ManyExtends<T>(item: Bytes -> Read<Bytes, T>, count: int, read: seq<T>, input: Bytes, more: Bytes)
    requires forall part :: Extends(item, part, more)
    ensures Extends((s: Bytes) => ReadMany(item, count, read, s), input, more)
    decreases count
  {
    if count > 0 {
      assert Extends(item, input, more);
      var x := item(input);
      if x.status == Good {
        ManyExtends(item, count - 1, read + [x.value], x.rest, more);
        assert Extends((s: Bytes) => ReadMany(item, count - 1, read + [x.value], s), x.rest, more);
      }
    }
  }

  /** What a loop reads from a part of its input is the beginning of what it reads from all of it. */
  lemma {:induction false} ManyBegins<T>(item: Bytes -> Read<Bytes, T>, count: int, read: seq<T>, input: Bytes, more: Bytes)
    requires forall part :: Extends(item, part, more)
    ensures ReadMany(item, count, read, input).value <= ReadMany(item, count, read, input + more).value
    decreases count
  {
    if count > 0 {
      assert Extends(item, input, more);
      var x := item(input);
      if x.status == Good {
        ManyBegins(item, count - 1, read + [x.value], x.rest, more);
      } else {
        ReadManyGrows(item, count, read, input + more);
      }
    }
  }

  /** How many items lie wholly in the first `n` bytes of a run. */
  function WholeItems<T>(item: T -> Bytes, xs: seq<T>, n: int): (w: nat)
    ensures w <= |xs|
  {
    if xs == [] || |item(xs[0])| > n then 0 else 1 + WholeItems(item, xs[1..], n - |item(xs[0])|)
  }

  /** So many fit, and one more does not. */
  lemma {:induction false} WholeItemsMean<T>(item: T -> Bytes, xs: seq<T>, n: nat)
    ensures var w := WholeItems(item, xs, n);
            |WriteMany(item, xs[..w])| <= n && (w < |xs| ==> n < |WriteMany(item, xs[..w + 1])|)
    decreases |xs|
  {
    if xs != [] {
      var size := |item(xs[0])|;
      assert xs[..1] == [xs[0]] && WriteMany(item, xs[..1][1..]) == [];
      if size <= n {
        var w := WholeItems(item, xs[1..], n - size);
        WholeItemsMean(item, xs[1..], n - size);
        assert xs[..w + 1][1..] == xs[1..][..w];
        if w < |xs[1..]| {
          assert xs[..w + 2][1..] == xs[1..][..w + 1];
        }
      }
    }
  }

  /** Where a reading loop gets to: it reads item after item from one place to the next, keeps all it has
      read, and stops behind the last or where it fails. */
  lemma {:induction false} ManyMeans<S, T>(item: S -> Read<S, T>, count: int, read: seq<T>, input: S)
    returns (places: seq<S>)
    ensures var r := ReadMany(item, count, read, input);
            var n := |places| - 1;
            && n >= 0 && places[0] == input && |r.value| == |read| + n && r.value[..|read|] == read
            && (forall i | 0 <= i < n :: item(places[i]) == Read(Good, r.value[|read| + i], places[i + 1]))
            && (if r.status == Good then n == (if count < 0 then 0 else count) && r.rest == places[n]
                else n < count && r.status == item(places[n]).status && r.rest == item(places[n]).rest)
    decreases count
  {
    places := [input];
    if count > 0 {
      var x := item(input);
      if x.status == Good {
        var more := ManyMeans(item, count - 1, read + [x.value], x.rest);
        places := [input] + more;
        var r := ReadMany(item, count, read, input);
        assert r.value[..|read|] == r.value[..|read| + 1][..|read|];
        assert r.value[|read|] == r.value[..|read| + 1][|read|];
      }
    }
  }

  /** An item that is read back if it is whole, and not at all if it is cut. */
  ghost predicate CutsFail<T>(reader: Bytes -> Read<Bytes, T>, writer: T -> Bytes, x: T) {
    && (forall rest :: reader(writer(x) + rest) == Read(Good, x, rest))
    && forall n | 0 <= n < |writer(x)| :: reader(writer(x)[..n]).status != Good
  }

  /** Of a run that is cut the whole items are read. */
  lemma {:induction false} CutRun<T>(reader: Bytes -> Read<Bytes, T>, writer: T -> Bytes, xs: seq<T>, read: seq<T>, n: nat)
    requires forall x | x in xs :: CutsFail(reader, writer, x)
    requires n < |WriteMany(writer, xs)|
    ensures var r := ReadMany(reader, |xs|, read, WriteMany(writer, xs)[..n]);
            r.status != Good && r.value == read + xs[..WholeItems(writer, xs, n)]
    decreases |xs|
  {
    var x, more := xs[0], xs[1..];
    var size, rest := |writer(x)|, WriteMany(writer, more);
    assert CutsFail(reader, writer, x);
    CutAppend(writer(x), rest, n);
    if n < size {
      assert read + xs[..0] == read;
    } else {
      CutRun(reader, writer, more, read + [x], n - size);
      var w := WholeItems(writer, more, n - size);
      assert read + xs[..w + 1] == (read + [x]) + more[..w];
    }
  }

  /** Replaces the items held one by one until the input ends or goes wrong; the one that fails is replaced
      by as much of it as was read. */
  function ReplaceMany<T>(item: Bytes -> Read<Bytes, T>, held: seq<T>, input: Bytes): Read<Bytes, seq<T>> {
    if held == [] then Read(Good, [], input)
    else
      var x := item(input);
      if x.status != Good then Read(x.status, [x.value] + held[1..], x.rest)
      else
        var r := ReplaceMany(item, held[1..], x.rest);
        Read(r.status, [x.value] + r.value, r.rest)
  }

  /** An item of which `part` tells what is left when its bytes are cut. */
  ghost predicate CutsTo<T>(reader: Bytes -> Read<Bytes, T>, writer: T -> Bytes, part: (T, int) -> T, x: T) {
    && CutsFail(reader, writer, x)
    && forall n | 0 <= n < |writer(x)| :: reader(writer(x)[..n]).value == part(x, n)
  }

  /** The items that lie wholly in the first `n` bytes, a part of the next one, and those held behind it. */
  function CutReplaced<T>(writer: T -> Bytes, part: (T, int) -> T, xs: seq<T>, held: seq<T>, n: int): seq<T>
    requires |held| == |xs|
  {
    var w := WholeItems(writer, xs, n);
    xs[..w] + if w == |xs| then [] else [part(xs[w], n - |WriteMany(writer, xs[..w])|)] + held[w + 1..]
  }

  lemma OneMoreReplaced<T>(writer: T -> Bytes, part: (T, int) -> T, xs: seq<T>, held: seq<T>, n: nat)
    requires |held| == |xs| && xs != []
    ensures CutReplaced(writer, part, xs, held, n)
            == if n < |writer(xs[0])| then [part(xs[0], n)] + held[1..]
               else [xs[0]] + CutReplaced(writer, part, xs[1..], held[1..], n - |writer(xs[0])|)
  {
    if n >= |writer(xs[0])| {
      var more, w := xs[1..], WholeItems(writer, xs[1..], n - |writer(xs[0])|);
      assert xs[..w + 1][1..] == more[..w];
      assert xs[..w + 1] == [xs[0]] + more[..w];
      assert WriteMany(writer, xs[..w + 1]) == writer(xs[0]) + WriteMany(writer, more[..w]);
    }
  }

  /** Reading a run that is cut after `n` bytes, wherever that is. */
  lemma {:induction false} CutReplace<T>(reader: Bytes -> Read<Bytes, T>, writer: T -> Bytes, part: (T, int) -> T,
                                         xs: seq<T>, held: seq<T>, n: nat)
    requires forall x | x in xs :: CutsTo(reader, writer, part, x)
    requires |held| == |xs| && n <= |WriteMany(writer, xs)|
    ensures ReplaceMany(reader, held, WriteMany(writer, xs)[..n]).value == CutReplaced(writer, part, xs, held, n)
    decreases |xs|
  {
    if xs != [] {
      var x, more, size := xs[0], xs[1..], |writer(xs[0])|;
      assert CutsTo(reader, writer, part, x);
      CutAppend(writer(x), WriteMany(writer, more), n);
      OneMoreReplaced(writer, part, xs, held, n);
      if n >= size {
        CutReplace(reader, writer, part, more, held[1..], n - size);
      }
    }
  }

  lemma Associate(a: Bytes, b: Bytes, c: Bytes)
    ensures (a + b) + c == a + (b + c)
  {
  }

  lemma AppendParts(a: Bytes, b: Bytes)
    ensures (a + b)[..|a|] == a && (a + b)[|a|..] == b
  {
  }

  /** What is left of two parts that are cut short, in the first of them or behind it. */
  lemma CutAppend(a: Bytes, b: Bytes, n: nat)
    requires n <= |a + b|
    ensures (a + b)[..n] == if n < |a| then a[..n] else a + b[..n - |a|]
  {
  }

  lemma SliceOfAppend(a: Bytes, b: Bytes, k: nat)
    requires k <= |a|
    ensures (a + b)[..k] == a[..k] && (a + b)[k..] == a[k..] + b
  {
  }
}
