/** Key agreement: the key a server gives a resource, and the key it computes from a request. */
module ResourceKeys {
  import opened Bytes
  import opened Bits
  import opened HashKey
  import opened Options
  import opened UriPath
  import opened UriOptions
  import opened Pdus
  import opened Iterators
  import opened Codec
  import Seqs

  const URI_PATH: nat := 9

  function ValuesOf(os: seq<Opt>): seq<seq<Byte>> {
    if os == [] then [] else ValuesOf(os[..|os| - 1]) + [os[|os| - 1].val]
  }

  lemma ValuesOfSnoc(os: seq<Opt>, o: Opt)
    ensures ValuesOf(os + [o]) == ValuesOf(os) + [o.val]
  {
    assert (os + [o])[..|os|] == os;
  }

  /** The options with number `num` and these values. */
  function Named(num: nat, vals: seq<seq<Byte>>): (os: seq<Opt>)
    ensures |os| == |vals| && forall i | 0 <= i < |os| :: os[i] == Opt(num, vals[i])
  {
    if vals == [] then [] else Named(num, vals[..|vals| - 1]) + [Opt(num, vals[|vals| - 1])]
  }

  lemma {:induction false} NamedValues(num: nat, vals: seq<seq<Byte>>)
    ensures ValuesOf(Named(num, vals)) == vals
  {
    if vals != [] {
      NamedValues(num, vals[..|vals| - 1]);
      ValuesOfSnoc(Named(num, vals[..|vals| - 1]), Opt(num, vals[|vals| - 1]));
    }
  }

  /** What the server hashes when the options `os` are handed out. */
  function Hashed(os: seq<Opt>): seq<Byte> { Joined(ValuesOf(os)) }

  lemma HashedSnoc(os: seq<Opt>, o: Opt)
    ensures Hashed(os + [o]) == Hashed(os) + o.val
  {
    ValuesOfSnoc(os, o);
    JoinedSnoc(ValuesOf(os), o.val);
  }

  /** One round of the loop: hash the current option and move on. */
  method HashOption(it: OptionIterator, key: array<Byte>) returns (o: Opt, found: bool)
    requires it.Moved(true) && key.Length == 4 && key != it.pdu.buf
    modifies it, key
    ensures it.Moved(found) && old(it.Rest()) == [o] + it.Rest()
    ensures key[..] == Fold(old(key[..]), o.val)
  {
    o := it.Read();
    Hash(o.val, key);
    it.RestHead();
    found := it.Next();
  }

  /** The key is that of the options handed out so far, `os`; the others are still to come. */
  ghost predicate Halfway(k: Key, os: seq<Opt>, rest: seq<Opt>, every: seq<Opt>) {
    os + rest == every && k == Fold(ZERO, Hashed(os))
  }

  lemma OneMore(k: Key, os: seq<Opt>, o: Opt, rest: seq<Opt>, every: seq<Opt>)
    requires Halfway(k, os, [o] + rest, every)
    ensures Halfway(Fold(k, o.val), os + [o], rest, every)
  {
    Seqs.Assoc(os, [o], rest);
    FoldConcat(ZERO, Hashed(os), o.val);
    HashedSnoc(os, o);
  }

  /** The loop of coap_hash_request_uri, for any filter. */
  method HashMatching(pdu: Pdu, filter: Vec, key: array<Byte>)
    requires pdu.OptionsValid() && key.Length == 4 && key != pdu.buf && key[..] == ZERO
    modifies key
    ensures key[..] == Fold(ZERO, Hashed(Emit(pdu.wire, pdu.StopIndex(), Through(filter), 0, 1)))
  {
    ghost var every := Emit(pdu.wire, pdu.StopIndex(), Through(filter), 0, 1);
    var it := new OptionIterator(pdu, filter);
    it.FirstComing();
    ghost var os := [];
    var found := it.Next();
    while found
      invariant it.Moved(found) && it.pdu == pdu && fresh(it)
      invariant Halfway(key[..], os, it.Rest(), every)
      decreases |it.Rest()|
    {
      ghost var k := key[..];
      var o;
      o, found := HashOption(it, key);
      OneMore(k, os, o, it.Rest(), every);
      os := os + [o];
    }
    assert it.Rest() == [] && os + [] == os;
  }

  /** coap_hash_request_uri */
  method HashRequestUri(pdu: Pdu, key: array<Byte>)
    requires pdu.OptionsValid() && key.Length == 4 && key != pdu.buf
    modifies key
    ensures key[..] == Fold(ZERO, Hashed(Emit(pdu.wire, pdu.StopIndex(), Through(OnlyType(URI_PATH)), 0, 1)))
  {
    Clear(key);
    HashMatching(pdu, OnlyType(URI_PATH), key);
  }

  lemma {:induction false} SelectConcat(a: seq<Opt>, b: seq<Opt>, pick: Opt -> bool)
    ensures Select(a + b, pick) == Select(a, pick) + Select(b, pick)
    decreases |b|
  {
    if b == [] {
      assert a + b == a;
      assert Select(a, pick) + [] == Select(a, pick);
    } else {
      var c, o := b[..|b| - 1], b[|b| - 1];
      SelectConcat(a, c, pick);
      assert (a + b)[..|a + b| - 1] == a + c && (a + b)[|a + b| - 1] == o;
      Seqs.Assoc(Select(a, pick), Select(c, pick), Kept(o, pick));
    }
  }

  lemma {:induction false} SelectNone(os: seq<Opt>, pick: Opt -> bool)
    requires forall i | 0 <= i < |os| :: !pick(os[i])
    ensures Select(os, pick) == []
  {
    if os != [] {
      SelectNone(os[..|os| - 1], pick);
    }
  }

  lemma {:induction false} SelectEvery(os: seq<Opt>, pick: Opt -> bool)
    requires forall i | 0 <= i < |os| :: pick(os[i])
    ensures Select(os, pick) == os
  {
    if os != [] {
      SelectEvery(os[..|os| - 1], pick);
    }
  }

  /** A request: other options with numbers up to 23 around the Uri-Path options of the path. */
  ghost predicate Request(os: seq<Opt>, before: seq<Opt>, vals: seq<seq<Byte>>, after: seq<Opt>) {
    && os == before + Named(URI_PATH, vals) + after
    && (forall i | 0 <= i < |before| :: before[i].num < URI_PATH)
    && (forall i | 0 <= i < |after| :: URI_PATH < after[i].num < 24)
  }

  lemma RequestSelects(os: seq<Opt>, before: seq<Opt>, vals: seq<seq<Byte>>, after: seq<Opt>)
    requires Request(os, before, vals, after)
    ensures Select(os, Through(OnlyType(URI_PATH))) == Named(URI_PATH, vals)
  {
    var pick := Through(OnlyType(URI_PATH));
    forall i | 0 <= i < |os|
      ensures pick(os[i]) <==> os[i].num == URI_PATH
    {
      RequestNumbers(os, before, vals, after, i);
      NamedPasses(os[i], URI_PATH);
    }
    SelectMiddle(before, Named(URI_PATH, vals), after, pick);
  }

  lemma RequestNumbers(os: seq<Opt>, before: seq<Opt>, vals: seq<seq<Byte>>, after: seq<Opt>, i: nat)
    requires Request(os, before, vals, after) && i < |os|
    ensures os[i].num < 24 && (os[i].num == URI_PATH <==> |before| <= i < |before| + |vals|)
  {
    var b, n := |before|, |vals|;
    assert i < b ==> os[i] == before[i];
    assert b <= i < b + n ==> os[i] == Named(URI_PATH, vals)[i - b];
    assert i >= b + n ==> os[i] == after[i - b - n];
  }

  /** A filter that accepts exactly the middle part. */
  lemma SelectMiddle(a: seq<Opt>, m: seq<Opt>, c: seq<Opt>, pick: Opt -> bool)
    requires forall i | 0 <= i < |a + m + c| :: pick((a + m + c)[i]) <==> |a| <= i < |a| + |m|
    ensures Select(a + m + c, pick) == m
  {
    assert Select(a, pick) == [] by { PartOf(a, m, c, pick, 0); SelectNone(a, pick); }
    assert Select(m, pick) == m by { PartOf(a, m, c, pick, 1); SelectEvery(m, pick); }
    assert Select(c, pick) == [] by { PartOf(a, m, c, pick, 2); SelectNone(c, pick); }
    SelectConcat(a + m, c, pick);
    SelectConcat(a, m, pick);
  }

  /** The filter on one of the three parts. */
  lemma PartOf(a: seq<Opt>, m: seq<Opt>, c: seq<Opt>, pick: Opt -> bool, part: nat)
    requires forall i | 0 <= i < |a + m + c| :: pick((a + m + c)[i]) <==> |a| <= i < |a| + |m|
    ensures part == 0 ==> forall i | 0 <= i < |a| :: !pick(a[i])
    ensures part == 1 ==> forall i | 0 <= i < |m| :: pick(m[i])
    ensures part == 2 ==> forall i | 0 <= i < |c| :: !pick(c[i])
  {
    var os := a + m + c;
    if part == 0 {
      assert forall i | 0 <= i < |a| :: a[i] == os[i];
    } else if part == 1 {
      assert forall i | 0 <= i < |m| :: m[i] == os[|a| + i];
    } else {
      assert forall i | 0 <= i < |c| :: c[i] == os[|a| + |m| + i];
    }
  }

  /** With at least one path segment the numbers of a request lie close together. */
  lemma RequestClose(os: seq<Opt>, before: seq<Opt>, vals: seq<seq<Byte>>, after: seq<Opt>)
    requires Request(os, before, vals, after) && Addable(os) && vals != []
    ensures Close(os)
  {
    var b, n := |before|, |vals|;
    forall i | 0 <= i < |os|
      ensures os[i].num < 24 && (i < b + n ==> os[i].num <= URI_PATH) && (i >= b ==> os[i].num >= URI_PATH)
    {
      assert i < b ==> os[i] == before[i];
      assert b <= i < b + n ==> os[i] == Named(URI_PATH, vals)[i - b];
      assert i >= b + n ==> os[i] == after[i - b - n];
    }
    forall i | 0 <= i < |os|
      ensures os[i].num < NumBefore(os, i) + 15
    {
      if i > 0 {
        assert i - 1 < b ==> i < b + n;
      }
    }
  }

  /** The byte stream the server hashes for the request is that of the path, if and only if the path is clean. */
  lemma RequestStream(os: seq<Opt>, before: seq<Opt>, path: seq<Byte>, after: seq<Opt>)
    requires Request(os, before, Values(Segments(PATH, path)), after) && Sendable(os)
    ensures Hashed(Emit(Encode(os), ReaderStop(Encode(os)), Through(OnlyType(URI_PATH)), 0, 1)) == Stream(path)
      <==> Clean(path)
  {
    var ws, pick, vals := Encode(os), Through(OnlyType(URI_PATH)), Values(Segments(PATH, path));
    SendableReads(os, pick);
    ReadingExact(ws, ReaderStop(ws), pick);
    EncodeShown(os, pick);
    RequestSelects(os, before, vals, after);
    NamedValues(URI_PATH, vals);
    StreamsAgree(path);
  }

  /** The client's loop over the buffer that coap_split_path filled. */
  method ReadValues(buf: array<Byte>, n: nat, ghost vals: seq<seq<Byte>>) returns (read: seq<seq<Byte>>)
    requires UriOptions.Carries(buf[..], vals) && n == |vals|
    ensures read == vals
  {
    read := [];
    var at := 0;
    PlainShape(vals);
    for i := 0 to n
      invariant read == vals[..i] && at == Off(Plain(vals), i)
    {
      var v;
      v, at := ReadValue(buf, at, vals, i);
      read := read + [v];
    }
  }

  /** COAP_OPT_VALUE and COAP_OPT_SIZE of the option at position `at`. */
  method ReadValue(buf: array<Byte>, at: nat, ghost vals: seq<seq<Byte>>, ghost i: nat)
    returns (v: seq<Byte>, next: nat)
    requires UriOptions.Carries(buf[..], vals) && i < |vals| == |Plain(vals)| && at == Off(Plain(vals), i)
    ensures v == vals[i] && next == Off(Plain(vals), i + 1)
  {
    ValueThere(buf[..], vals, i);
    next := NextAt(buf[..], at);
    v := buf[..][ValueAt(buf[..], at)..next];
  }

  lemma ValueThere(s: seq<Byte>, vals: seq<seq<Byte>>, i: nat)
    requires UriOptions.Carries(s, vals) && i < |vals| == |Plain(vals)|
    ensures Reads(s, Off(Plain(vals), i), Off(Plain(vals), i + 1), Wire(0, vals[i]))
  {
    PlainShape(vals);
    ReadListed(s, Plain(vals), i, Wire(0, vals[i]));
  }

  lemma ReadListed(s: seq<Byte>, ws: seq<Wire>, i: nat, w: Wire)
    requires HoldsAt(s, 0, ws) && i < |ws| && ws[i] == w
    ensures Reads(s, Off(ws, i), Off(ws, i + 1), w)
  {
    ReadWire(s, 0, ws, i);
  }

  lemma {:induction false} PlainShape(vals: seq<seq<Byte>>)
    ensures |Plain(vals)| == |vals| && forall i | 0 <= i < |vals| :: Plain(vals)[i] == Wire(0, vals[i])
  {
    if vals != [] {
      PlainShape(vals[..|vals| - 1]);
    }
  }

  /** The client splits the path into a buffer and reads the values from it. */
  method SplitValues(path: seq<Byte>, room: nat) returns (vals: seq<seq<Byte>>)
    requires Size(Values(Segments(PATH, path))) <= room
    requires Announceable(Segments(PATH, path))
    ensures vals == Values(Segments(PATH, path))
  {
    var buf := new Byte[room];
    SafeWithRoom(Segments(PATH, path), room);
    var n, left := SplitToOptions(path, PATH, buf);
    vals := ReadValues(buf, n, Values(Segments(PATH, path)));
  }

  /** The server's key for a message with the options `os`. */
  method RequestKey(q: Pdu, ghost os: seq<Opt>) returns (k: seq<Byte>)
    requires Sendable(os) && q.Valid() && q.wire == Encode(os) && (q.Open() <==> |q.wire| >= OPT_LONG)
    ensures k == Fold(ZERO, Hashed(Emit(Encode(os), ReaderStop(Encode(os)), Through(OnlyType(URI_PATH)), 0, 1)))
  {
    var key := new Byte[4];
    HashRequestUri(q, key);
    k := key[..];
  }

  /** What a client may send with the path: at most fifteen options, or fewer wire options than that. */
  ghost predicate Askable(os: seq<Opt>, before: seq<Opt>, path: seq<Byte>, after: seq<Opt>) {
    && Request(os, before, Values(Segments(PATH, path)), after) && Addable(os)
    && (|Encode(os)| < OPT_LONG || (Values(Segments(PATH, path)) != [] && |os| <= OPT_LONG))
  }

  /**
   * A client splits a path, fills a message with its options between others, and sends it.
   * The message is accepted if and only if it has room. If the path is clean, the server
   * that registered its resource under the same path computes the same key.
   */
  method SameKey(size: nat, path: seq<Byte>, room: nat, before: seq<Opt>, after: seq<Opt>)
    returns (ok: bool, resource: seq<Byte>, request: seq<Byte>)
    requires HEADER_SIZE <= size < 0x10000 && Size(Values(Segments(PATH, path))) <= room
    requires Announceable(Segments(PATH, path))
    requires Askable(before + Named(URI_PATH, Values(Segments(PATH, path))) + after, before, path, after)
    ensures ok <==> AllFit(size, before + Named(URI_PATH, Values(Segments(PATH, path))) + after)
    ensures resource == Fold(ZERO, Stream(path))
    ensures ok && Clean(path) ==> request == resource
  {
    var key := new Byte[4];
    HashPath(path, key);
    resource, request := key[..], [];
    var vals := SplitValues(path, room);
    var os := before + Named(URI_PATH, vals) + after;
    if vals != [] {
      RequestClose(os, before, vals, after);
    }
    var q;
    ok, q := Send(size, os);
    if ok {
      RequestStream(os, before, path, after);
      request := RequestKey(q, os);
    }
  }
}
