/** The tar stream as the archiver and the extractor see it: headers, each followed by as many
    bytes as it announces. Nothing in the stream marks where a body ends, so writer and reader
    must agree by counting. */
module Tar {
  import opened Options
  import opened Disk

  datatype TypeFlag = TypeDir | TypeReg | TypeSymlink | TypeOther

  datatype Header = Header(name: string, flag: TypeFlag, mode: Mode, size: nat, linkname: string)

  datatype Entry = Entry(h: Header, body: seq<Byte>)

  datatype Token = Head(h: Header) | Data(b: Byte) | End

  /** Bytes that follow a header: directories and links never carry any. */
  function Payload(h: Header): nat
  {
    if h.flag.TypeDir? || h.flag.TypeSymlink? then 0 else h.size
  }

  function Raw(body: seq<Byte>): (r: seq<Token>)
    ensures |r| == |body|
    ensures forall i {:trigger r[i]} :: 0 <= i < |body| ==> r[i] == Data(body[i])
  {
    seq(|body|, i requires 0 <= i < |body| => Data(body[i]))
  }

  /** A header and its body. */
  function Whole(e: Entry): (r: seq<Token>)
    ensures |r| == 1 + |e.body| && r[0] == Head(e.h)
    ensures forall i {:trigger r[i]} :: 1 <= i < |r| ==> r[i] == Data(e.body[i - 1])
  {
    [Head(e.h)] + Raw(e.body)
  }

  function Encode(es: seq<Entry>): seq<Token>
  {
    if es == [] then [] else Whole(es[0]) + Encode(es[1..])
  }

  predicate Complete(e: Entry)
  {
    |e.body| == Payload(e.h)
  }

  /** A directory or link needs no body whatever size it announces, a file exactly as many bytes. */
  lemma CompleteMeans(h: Header, body: seq<Byte>)
    ensures h.flag.TypeDir? || h.flag.TypeSymlink? ==> (Complete(Entry(h, body)) <==> body == [])
    ensures h.flag.TypeReg? ==> (Complete(Entry(h, body)) <==> |body| == h.size)
  {
  }

  predicate AllComplete(es: seq<Entry>)
  {
    forall i :: 0 <= i < |es| ==> Complete(es[i])
  }

  /** Every body is complete, but the last may still miss bytes. */
  predicate Framed(es: seq<Entry>)
  {
    && (forall i :: 0 <= i < |es| - 1 ==> Complete(es[i]))
    && (es != [] ==> |es[|es| - 1].body| <= Payload(es[|es| - 1].h))
  }

  /** Body bytes still missing at the end. */
  function Outstanding(es: seq<Entry>): nat
    requires Framed(es)
  {
    if es == [] then 0 else Payload(es[|es| - 1].h) - |es[|es| - 1].body|
  }

  lemma NothingOutstanding(es: seq<Entry>)
    requires Framed(es)
    ensures Outstanding(es) == 0 <==> AllComplete(es)
  {
  }

  lemma {:induction false} EncodeAppend(a: seq<Entry>, b: seq<Entry>)
    ensures Encode(a + b) == Encode(a) + Encode(b)
  {
    if a == [] {
      assert a + b == b;
    } else {
      EncodeAppend(a[1..], b);
      assert (a + b)[1..] == a[1..] + b;
      assert Whole(a[0]) + (Encode(a[1..]) + Encode(b)) == (Whole(a[0]) + Encode(a[1..])) + Encode(b);
    }
  }

  lemma {:induction false} EncodeLast(es: seq<Entry>)
    requires es != []
    ensures Encode(es) == Encode(es[..|es| - 1]) + Whole(es[|es| - 1])
  {
    var last := [es[|es| - 1]];
    assert es == es[..|es| - 1] + last;
    EncodeAppend(es[..|es| - 1], last);
    assert Encode(last) == Whole(last[0]) + [];
  }

  lemma {:induction false} EncodeStart(es: seq<Entry>, tail: seq<Token>)
    requires tail in [[], [End]]
    ensures es != [] <==> |Encode(es) + tail| > 0 && (Encode(es) + tail)[0].Head?
    ensures es != [] ==> (Encode(es) + tail)[0] == Head(es[0].h)
  {
  }

  /** Counting is enough: a stream of complete entries, with or without the end marker, has only
      one reading. */
  lemma {:induction false} OneReading(a: seq<Entry>, b: seq<Entry>, endA: seq<Token>, endB: seq<Token>)
    requires AllComplete(a) && AllComplete(b)
    requires endA in [[], [End]] && endB in [[], [End]]
    requires Encode(a) + endA == Encode(b) + endB
    ensures a == b
    decreases |a|
  {
    EncodeStart(a, endA);
    EncodeStart(b, endB);
    if a != [] {
      var n := 1 + Payload(a[0].h);
      var x, y := Encode(a[1..]) + endA, Encode(b[1..]) + endB;
      assert Encode(a) + endA == Whole(a[0]) + x && Encode(b) + endB == Whole(b[0]) + y;
      SameSplit(Whole(a[0]), x, Whole(b[0]), y);
      forall i | 0 <= i < n - 1
        ensures a[0].body[i] == b[0].body[i]
      {
        assert Whole(a[0])[i + 1] == Whole(b[0])[i + 1];
      }
      assert a[0].body == b[0].body;
      OneReading(a[1..], b[1..], endA, endB);
      assert a == [a[0]] + a[1..] && b == [b[0]] + b[1..];
    }
  }

  lemma SameSplit(a: seq<Token>, x: seq<Token>, b: seq<Token>, y: seq<Token>)
    requires |a| == |b| && a + x == b + y
    ensures a == b && x == y
  {
    assert (a + x)[..|a|] == a && (b + y)[..|a|] == b;
    assert (a + x)[|a|..] == x && (b + y)[|a|..] == y;
  }

  /** The entries with more bytes in the last body. */
  function Extended(es: seq<Entry>, data: seq<Byte>): seq<Entry>
  {
    if data == [] || es == [] then es
    else
      var last := es[|es| - 1];
      es[..|es| - 1] + [last.(body := last.body + data)]
  }

  /** Appending body bytes to the stream extends the last entry and nothing else. */
  lemma {:induction false} EncodeExtended(es: seq<Entry>, data: seq<Byte>)
    requires Framed(es) && |data| <= Outstanding(es)
    ensures Framed(Extended(es, data))
    ensures Outstanding(Extended(es, data)) == Outstanding(es) - |data|
    ensures Encode(Extended(es, data)) == Encode(es) + Raw(data)
  {
    if data == [] || es == [] {
      assert Raw(data) == [];
    } else {
      var n := |es| - 1;
      var next := Extended(es, data);
      EncodeLast(es);
      EncodeLast(next);
      assert next[..n] == es[..n];
      WholeExtended(es[n], data);
      assert forall i :: 0 <= i < n ==> next[i] == es[i];
    }
  }

  lemma WholeExtended(e: Entry, data: seq<Byte>)
    ensures Whole(e.(body := e.body + data)) == Whole(e) + Raw(data)
  {
  }

  /** Where the k-th header stands in the stream. */
  function Offset(es: seq<Entry>, k: nat): nat
    requires k <= |es|
  {
    if k == 0 then 0 else Offset(es, k - 1) + 1 + |es[k - 1].body|
  }

  lemma {:induction false} OffsetIsLength(es: seq<Entry>, k: nat)
    requires k <= |es|
    ensures Offset(es, k) == |Encode(es[..k])|
  {
    if k > 0 {
      OffsetIsLength(es, k - 1);
      var part := es[..k];
      EncodeLast(part);
      assert part[..k - 1] == es[..k - 1] && part[k - 1] == es[k - 1];
    }
  }

  /** The stream around the k-th entry. */
  lemma {:induction false} EncodeAround(es: seq<Entry>, k: nat) returns (before: seq<Token>, after: seq<Token>)
    requires k < |es|
    ensures Encode(es) == before + Whole(es[k]) + after && |before| == Offset(es, k)
  {
    var rest := es[k..];
    assert es == es[..k] + rest;
    EncodeAppend(es[..k], rest);
    OffsetIsLength(es, k);
    before, after := Encode(es[..k]), Encode(rest[1..]);
    assert Encode(rest) == Whole(es[k]) + after;
    assert before + (Whole(es[k]) + after) == before + Whole(es[k]) + after;
  }

  datatype WriteError = MissedWriting | WriteTooLong | WriteAfterClose

  /** archive/tar's Writer over a gzip writer, the latter an identity pipe. */
  class TarWriter {
    var out: seq<Token>
    var remaining: nat
    var closed: bool
    ghost var entries: seq<Entry>

    ghost predicate Valid()
      reads this
    {
      && Framed(entries)
      && remaining == Outstanding(entries)
      && (out == Encode(entries) || (closed && remaining == 0 && out == Encode(entries) + [End]))
      && (!closed ==> out == Encode(entries))
    }

    constructor ()
      ensures Valid() && entries == [] && !closed
    {
      out, remaining, closed, entries := [], 0, false, [];
    }

    /** Refuses a new header while body bytes are outstanding. */
    method WriteHeader(h: Header) returns (err: Option<WriteError>)
      requires Valid() && !closed
      modifies this
      ensures Valid() && !closed
      ensures err.None? <==> old(remaining) == 0
      ensures entries == if err.None? then old(entries) + [Entry(h, [])] else old(entries)
      ensures err.None? ==> remaining == Payload(h)
      ensures err.Some? ==> err.value == MissedWriting && remaining == old(remaining)
    {
      if remaining > 0 { return Some(MissedWriting); }
      var e := Entry(h, []);
      EncodeLast(entries + [e]);
      assert (entries + [e])[..|entries|] == entries;
      assert Whole(e) == [Head(h)];
      assert forall i :: 0 <= i < |entries| ==> Complete(entries[i]);
      out, remaining := out + [Head(h)], Payload(h);
      entries := entries + [e];
      err := None;
    }

    /** Accepts at most the outstanding bytes of the current body. */
    method Write(data: seq<Byte>) returns (err: Option<WriteError>)
      requires Valid() && !closed
      modifies this
      ensures Valid() && !closed
      ensures err.None? <==> |data| <= old(remaining)
      ensures err.Some? ==> err.value == WriteTooLong
      ensures var n := if |data| <= old(remaining) then |data| else old(remaining);
              && remaining == old(remaining) - n
              && entries == Extended(old(entries), data[..n])
    {
      var n := if |data| <= remaining then |data| else remaining;
      EncodeExtended(entries, data[..n]);
      out, remaining := out + Raw(data[..n]), remaining - n;
      entries := Extended(entries, data[..n]);
      err := if n < |data| then Some(WriteTooLong) else None;
    }

    /** Writes the end marker unless a body is incomplete. */
    method Close()
      requires Valid() && !closed
      modifies this
      ensures Valid() && closed && entries == old(entries)
      ensures out == Encode(entries) + if Outstanding(entries) == 0 then [End] else []
    {
      if remaining == 0 { out := out + [End]; } else { assert out == out + []; }
      closed := true;
    }
  }

  /** The k-th entry stands in the stream at its offset. */
  ghost predicate HoldsAt(input: seq<Token>, es: seq<Entry>, k: nat)
    requires k < |es|
  {
    var at, body := Offset(es, k), es[k].body;
    && Offset(es, k + 1) == at + 1 + |body| <= |input|
    && input[at] == Head(es[k].h)
    && forall i {:trigger input[i]} :: at < i <= at + |body| ==> input[i] == Data(body[i - at - 1])
  }

  /** The stream is these entries, then nothing or, if no body is cut short, the end marker. */
  ghost predicate Holds(input: seq<Token>, es: seq<Entry>)
  {
    var end := Offset(es, |es|);
    && Framed(es)
    && (forall k :: 0 <= k < |es| ==> HoldsAt(input, es, k))
    && end <= |input|
    && (if Outstanding(es) == 0 then end < |input| ==> input[end] == End else end == |input|)
  }

  lemma {:induction false} StreamHolds(input: seq<Token>, es: seq<Entry>, tail: seq<Token>)
    requires Framed(es) && input == Encode(es) + tail
    requires tail == [] || (tail == [End] && Outstanding(es) == 0)
    ensures Holds(input, es)
  {
    OffsetIsLength(es, |es|);
    assert es[..|es|] == es;
    forall k | 0 <= k < |es|
      ensures HoldsAt(input, es, k)
    {
      var before, after := EncodeAround(es, k);
      FourParts(before, Whole(es[k]), after, tail);
      EntryHolds(input, es, k, before, after + tail);
    }
  }

  lemma FourParts(a: seq<Token>, b: seq<Token>, c: seq<Token>, d: seq<Token>)
    ensures a + b + c + d == a + b + (c + d)
  {
  }

  /** An entry that stands between two pieces of stream stands at the length of the first. */
  lemma {:induction false} EntryHolds(input: seq<Token>, es: seq<Entry>, k: nat, before: seq<Token>, after: seq<Token>)
    requires k < |es| && input == before + Whole(es[k]) + after && |before| == Offset(es, k)
    ensures HoldsAt(input, es, k)
  {
    var w, at := Whole(es[k]), |before|;
    Middle(before, w, after, 0);
    forall i | at < i <= at + |es[k].body|
      ensures input[i] == Data(es[k].body[i - at - 1])
    {
      Middle(before, w, after, i - at);
    }
  }

  lemma Middle(a: seq<Token>, b: seq<Token>, c: seq<Token>, i: nat)
    requires i < |b|
    ensures |a| + i < |a + b + c| && (a + b + c)[|a| + i] == b[i]
  {
    assert (a + b)[|a| + i] == b[i];
  }

  datatype NextResult = Got(h: Header) | EndOfArchive | Corrupt

  /** archive/tar's Reader. The ghost fields say which entries the input holds and how many of
      their headers have been read. */
  class TarReader {
    const input: seq<Token>
    var pos: nat
    var remaining: nat
    ghost const entries: seq<Entry>
    ghost var taken: nat

    ghost predicate Valid()
      reads this
    {
      && Holds(input, entries)
      && taken <= |entries|
      && pos <= Offset(entries, taken)
      && pos + remaining == Offset(entries, taken) + Missing()
      && (taken > 0 ==> Offset(entries, taken - 1) < pos)
    }

    /** How many bytes the current body falls short of its announced size: none, unless the stream
        is cut in this very body. */
    ghost function Missing(): int
      requires taken <= |entries|
      reads this
    {
      if taken == 0 then 0 else Payload(entries[taken - 1].h) - |entries[taken - 1].body|
    }

    constructor (stream: seq<Token>, ghost es: seq<Entry>)
      requires Holds(stream, es)
      ensures Valid() && entries == es && taken == 0
    {
      input, pos, remaining, entries, taken := stream, 0, 0, es, 0;
    }

    /** Skips what is left of the current body by counting, and lands on the next header. */
    method Next() returns (r: NextResult)
      requires Valid()
      modifies this
      ensures Valid()
      ensures r.Got? <==> old(taken) < |entries|
      ensures r.Got? ==> taken == old(taken) + 1 && r.h == entries[old(taken)].h && remaining == Payload(r.h)
      ensures r.EndOfArchive? <==> old(taken) == |entries| && Outstanding(entries) == 0
      ensures !r.Got? ==> taken == old(taken)
    {
      if taken < |entries| {
        assert HoldsAt(input, entries, taken);
        assert taken > 0 ==> Complete(entries[taken - 1]);
      }
      if remaining > |input| - pos {
        return Corrupt;
      }
      pos, remaining := pos + remaining, 0;
      if pos == |input| || input[pos] == End {
        return EndOfArchive;
      }
      if input[pos].Data? { return Corrupt; }
      r := Got(input[pos].h);
      pos, remaining := pos + 1, Payload(r.h);
      taken := taken + 1;
    }

    /** io.CopyN from the reader, starting at the beginning of a body: the whole body, and an
        error exactly when the stream ends before `n` bytes. */
    method CopyN(n: nat) returns (data: seq<Byte>, short: bool)
      requires Valid() && taken > 0
      requires n == remaining == Payload(entries[taken - 1].h)
      modifies this
      ensures Valid() && taken == old(taken)
      ensures data == entries[taken - 1].body
      ensures short <==> |data| < n
    {
      data := [];
      ghost var body, start := entries[taken - 1].body, Offset(entries, taken - 1) + 1;
      assert HoldsAt(input, entries, taken - 1);
      assert |body| <= n && (|body| < n ==> start + |body| == |input|);
      while |data| < n && pos < |input| && input[pos].Data?
        invariant taken == old(taken) && |data| <= |body| && data == body[..|data|]
        invariant pos == start + |data| && remaining == n - |data|
        invariant |data| < |body| ==> pos < |input| && input[pos] == Data(body[|data|])
      {
        data, pos, remaining := data + [input[pos].b], pos + 1, remaining - 1;
      }
      short := |data| < n;
    }
  }
}
