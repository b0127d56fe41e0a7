/** Sequences of elements of any type that has a reader and a writer: the
    elements one after the other, with no separator, as every counted
    collection of both crates lays them out. `R` and `W` are the read and
    write error types. */
module Elements {
  import opened Wire

  /** An element type's `ProtocolRead::read` and `ProtocolWrite::write`:
      what the reader yields at a position, and what the writer emits. */
  datatype Codec<!T, R, W> = Codec(parse: (seq<byte>, nat) -> Result<Parsed<T>, R>, emit: T -> Emitted<W>)

  /** The element reader gives back `x` wherever the element writer emitted
      it successfully, and consumes exactly those bytes. */
  ghost predicate RoundTripsAt<T, R, W>(c: Codec<T, R, W>, x: T) {
    forall buf: seq<byte>, pos: nat {:trigger WrittenAt(c, x, buf, pos)} ::
      WrittenAt(c, x, buf, pos) ==> c.parse(buf, pos) == Ok(Parsed(x, pos + |c.emit(x).bytes|))
  }

  /** Every value of the element type round-trips. */
  ghost predicate RoundTrips<T(!new), R, W>(c: Codec<T, R, W>) {
    forall x: T :: RoundTripsAt(c, x)
  }

  /** Every one of `xs` round-trips. */
  ghost predicate AllRoundTrip<T, R, W>(c: Codec<T, R, W>, xs: seq<T>) {
    forall i :: 0 <= i < |xs| ==> RoundTripsAt(c, xs[i])
  }

  /** `x` was written successfully, and its bytes stand at `pos`. */
  ghost predicate WrittenAt<T, R, W>(c: Codec<T, R, W>, x: T, buf: seq<byte>, pos: nat) {
    c.emit(x).outcome.Pass? && HasAt(buf, pos, c.emit(x).bytes)
  }

  /** The reader never moves backwards, and a successful read never ends
      past the end of the buffer. */
  ghost predicate Forward<T, R, W>(c: Codec<T, R, W>) {
    forall buf: seq<byte>, pos: nat {:trigger c.parse(buf, pos)} ::
      c.parse(buf, pos).Ok? ==> pos <= c.parse(buf, pos).value.next <= |buf|
  }

  lemma ElemRoundTrip<T, R, W>(c: Codec<T, R, W>, x: T, buf: seq<byte>, pos: nat)
    requires RoundTripsAt(c, x)
    requires c.emit(x).outcome.Pass? && HasAt(buf, pos, c.emit(x).bytes)
    ensures c.parse(buf, pos) == Ok(Parsed(x, pos + |c.emit(x).bytes|))
  {
    assert WrittenAt(c, x, buf, pos);
  }

  // ---------------------------------------------------------------------
  // The elements

  /** `(0..n).map(|_| T::read(cursor)).collect::<Result<Vec<_>, _>>()`:
      `n` elements read one after the other; the first error ends the read
      and the elements read so far are dropped. */
  function ParseMany<T, R, W>(c: Codec<T, R, W>, buf: seq<byte>, pos: nat, n: nat): Result<Parsed<seq<T>>, R>
    decreases n
  {
    if n == 0 then Ok(Parsed([], pos))
    else
      var x :- c.parse(buf, pos);
      var rest :- ParseMany(c, buf, x.next, n - 1);
      Ok(Parsed([x.value] + rest.value, rest.next))
  }

  /** Elements read by a forward reader end between the start and the end
      of the buffer. */
  lemma {:induction false} ManyForward<T, R, W>(c: Codec<T, R, W>, buf: seq<byte>, pos: nat, n: nat)
    requires Forward(c) && pos <= |buf|
    ensures ParseMany(c, buf, pos, n).Ok? ==> pos <= ParseMany(c, buf, pos, n).value.next <= |buf|
    decreases n
  {
    if n > 0 {
      var x := c.parse(buf, pos);
      if x.Ok? {
        ManyForward(c, buf, x.value.next, n - 1);
      }
    }
  }

  /** `for item in items { item.write(writer)?; }`: every element's bytes in
      order, up to and including those of the first element whose write
      fails. */
  function EmitAll<T, R, W>(c: Codec<T, R, W>, xs: seq<T>): Emitted<W>
  {
    if xs == [] then Emitted([], Pass) else c.emit(xs[0]).Then(EmitAll(c, xs[1..]))
  }

  /** One more element read after `i` successful ones extends the result. */
  lemma {:induction false} ManySnoc<T, R, W>(c: Codec<T, R, W>, buf: seq<byte>, pos: nat, i: nat, items: seq<T>, p: nat, x: T, q: nat)
    requires ParseMany(c, buf, pos, i) == Ok(Parsed(items, p))
    requires c.parse(buf, p) == Ok(Parsed(x, q))
    ensures ParseMany(c, buf, pos, i + 1) == Ok(Parsed(items + [x], q))
    decreases i
  {
    if i > 0 {
      var y := c.parse(buf, pos).value;
      var rest := ParseMany(c, buf, y.next, i - 1).value;
      assert items == [y.value] + rest.value;
      ManySnoc(c, buf, y.next, i - 1, rest.value, p, x, q);
      assert items + [x] == [y.value] + (rest.value + [x]);
    } else {
      assert ParseMany(c, buf, q, 0) == Ok(Parsed([], q));
      assert items + [x] == [x] + [];
    }
  }

  /** An element error after `i` successful elements, with more still to
      read, is the error of the whole read. */
  lemma {:induction false} ManyStopsAtError<T, R, W>(c: Codec<T, R, W>, buf: seq<byte>, pos: nat, i: nat, items: seq<T>, p: nat, e: R, n: nat)
    requires ParseMany(c, buf, pos, i) == Ok(Parsed(items, p))
    requires c.parse(buf, p) == Err(e)
    requires i < n
    ensures ParseMany(c, buf, pos, n) == Err(e)
    decreases i
  {
    if i > 0 {
      var y := c.parse(buf, pos).value;
      var rest := ParseMany(c, buf, y.next, i - 1).value;
      ManyStopsAtError(c, buf, y.next, i - 1, rest.value, p, e, n - 1);
    }
  }

  /** Writing `ys` then `zs` is writing `ys + zs`, `?` included. */
  lemma {:induction false} EmitConcat<T, R, W>(c: Codec<T, R, W>, ys: seq<T>, zs: seq<T>)
    ensures EmitAll(c, ys + zs) == EmitAll(c, ys).Then(EmitAll(c, zs))
    decreases ys
  {
    if ys == [] {
      assert ys + zs == zs;
    } else {
      assert (ys + zs)[1..] == ys[1..] + zs;
      EmitConcat(c, ys[1..], zs);
    }
  }

  /** The elements a successful write emitted read back in order, and
      exactly their bytes are consumed. */
  lemma {:induction false} ManyRoundTrip<T, R, W>(c: Codec<T, R, W>, xs: seq<T>, buf: seq<byte>, pos: nat) returns (next: nat)
    requires AllRoundTrip(c, xs)
    requires EmitAll(c, xs).outcome.Pass?
    requires HasAt(buf, pos, EmitAll(c, xs).bytes)
    ensures next == pos + |EmitAll(c, xs).bytes|
    ensures ParseMany(c, buf, pos, |xs|) == Ok(Parsed(xs, next))
    decreases xs
  {
    if xs == [] {
      next := pos;
    } else {
      var e := c.emit(xs[0]);
      var rest := EmitAll(c, xs[1..]);
      HasAtSplit(buf, pos, e.bytes, rest.bytes);
      ElemRoundTrip(c, xs[0], buf, pos);
      next := ManyRoundTrip(c, xs[1..], buf, pos + |e.bytes|);
      assert [xs[0]] + xs[1..] == xs;
    }
  }

  /** Reads `n` elements at the cursor. */
  method ReadMany<T, R, W>(codec: Codec<T, R, W>, c: Cursor, n: nat) returns (r: Result<seq<T>, R>)
    modifies c
    ensures r == ValueOf(ParseMany(codec, c.buf, old(c.pos), n))
    ensures r.Ok? ==> c.pos == ParseMany(codec, c.buf, old(c.pos), n).value.next
  {
    var start := c.pos;
    var items: seq<T> := [];
    var i := 0;
    while i < n
      invariant 0 <= i <= n
      invariant ParseMany(codec, c.buf, start, i) == Ok(Parsed(items, c.pos))
    {
      var x := codec.parse(c.buf, c.pos);
      if x.Err? {
        ManyStopsAtError(codec, c.buf, start, i, items, c.pos, x.error, n);
        return Err(x.error);
      }
      ManySnoc(codec, c.buf, start, i, items, c.pos, x.value.value, x.value.next);
      c.SetPosition(x.value.next);
      items := items + [x.value.value];
      i := i + 1;
    }
    r := Ok(items);
  }

  /** Writes the elements in order, stopping at the first failure. */
  method WriteItems<T, R, W>(codec: Codec<T, R, W>, xs: seq<T>, w: Writer) returns (o: Outcome<W>)
    modifies w
    ensures o == EmitAll(codec, xs).outcome
    ensures w.data == old(w.data) + EmitAll(codec, xs).bytes
  {
    var i := 0;
    while i < |xs|
      invariant 0 <= i <= |xs|
      invariant EmitAll(codec, xs[..i]).outcome.Pass?
      invariant w.data == old(w.data) + EmitAll(codec, xs[..i]).bytes
    {
      var e := codec.emit(xs[i]);
      w.WriteAll(e.bytes);
      assert xs[..i + 1] == xs[..i] + [xs[i]];
      EmitConcat(codec, xs[..i], [xs[i]]);
      assert EmitAll(codec, [xs[i]]) == e.Then(Emitted([], Pass));
      if e.outcome.Fail? {
        assert xs == xs[..i + 1] + xs[i + 1..];
        EmitConcat(codec, xs[..i + 1], xs[i + 1..]);
        return e.outcome;
      }
      i := i + 1;
    }
    assert xs[..|xs|] == xs;
    o := Pass;
  }
}
