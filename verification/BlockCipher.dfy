/**
 * The cipher as the program has it: a reader that rewrites the caller's buffer in place, in a
 * blocking and an asynchronous form. Both are shown to take steps of the one stream machine.
 */
module BlockCipher {
  import opened Results
  import opened LayerCipher

  /** How the next read of the inner reader goes: at most so many bytes, an error, or not yet. */
  datatype Turn = Give(most: nat) | Fail | Wait

  datatype Got = Bytes(n: nat) | Error | Later

  /** An inner reader with some data left, cutting it into chunks as its schedule says. */
  class ByteSource {
    var data: Octets
    var schedule: seq<Turn>

    constructor (data: Octets, schedule: seq<Turn>)
      ensures this.data == data && this.schedule == schedule
    {
      this.data, this.schedule := data, schedule;
    }

    method Read(buf: array<bv8>, start: nat) returns (got: Got)
      requires start <= buf.Length
      modifies this, buf
      ensures got.Bytes? ==>
                && got.n <= buf.Length - start && got.n <= |old(data)|
                && buf[start..start + got.n] == old(data)[..got.n] && data == old(data)[got.n..]
                && buf[..start] == old(buf[..start]) && buf[start + got.n..] == old(buf[start + got.n..])
      ensures got == Bytes(0) ==> old(data) == [] || start == buf.Length
      ensures !got.Bytes? ==> data == old(data) && buf[..] == old(buf[..])
      ensures |schedule| <= |old(schedule)| && (!got.Bytes? ==> |schedule| < |old(schedule)|)
      ensures got.Error? ==> Fail in old(schedule)
      ensures Fail in schedule ==> Fail in old(schedule)
    {
      var turn := if schedule == [] then Give(1) else schedule[0];
      schedule := if schedule == [] then [] else schedule[1..];
      match turn {
        case Fail => return Error;
        case Wait => return Later;
        case Give(most) =>
          var n := if most == 0 then 1 else most;
          if |data| < n { n := |data|; }
          if buf.Length - start < n { n := buf.Length - start; }
          forall k | 0 <= k < n {
            buf[start + k] := data[k];
          }
          data := data[n..];
          return Bytes(n);
      }
    }
  }

  /** `tokio::io::ReadBuf`: a buffer of which a front part is filled. */
  class ReadBuf {
    const buf: array<bv8>
    var filled: nat

    constructor (buf: array<bv8>)
      ensures this.buf == buf && filled == 0
    {
      this.buf := buf;
      filled := 0;
    }
  }

  /** Keystream bytes from `pos` on, over `buf[start..end]` in place. */
  method ApplyInPlace(c: Crypto, key: Octets, nonce: Octets, pos: nat, buf: array<bv8>, start: nat, end: nat)
    requires start <= end <= buf.Length
    modifies buf
    ensures buf[start..end] == ApplyKeystream(c, key, nonce, pos, old(buf[start..end]))
    ensures buf[..start] == old(buf[..start]) && buf[end..] == old(buf[end..])
  {
    for i := start to end
      invariant forall k :: start <= k < i ==> buf[k] == old(buf[k]) ^ c.keystream(key, nonce, pos + k - start)
      invariant forall k :: i <= k < buf.Length ==> buf[k] == old(buf[k])
      invariant buf[..start] == old(buf[..start])
    {
      buf[i] := buf[i] ^ c.keystream(key, nonce, pos + i - start);
    }
  }

  class CipherState {
    const key: Octets
    const nonce: Octets
    const reader: ByteSource
    var done: bool
    var position: nat
    var macInput: Octets
    var expHmac: Octets
    ghost var consumed: Octets

    constructor (key: Octets, nonce: Octets, expHmac: Octets, reader: ByteSource)
      ensures this.key == key && this.nonce == nonce && this.expHmac == expHmac && this.reader == reader
      ensures !done && position == 0 && macInput == [] && consumed == []
    {
      this.key, this.nonce, this.expHmac, this.reader := key, nonce, expHmac, reader;
      done, position, macInput, consumed := false, 0, [], [];
    }

    ghost predicate Valid(c: Crypto, encrypt: bool)
      reads this
    {
      position == |consumed| && macInput == Ciphertext(c, View(encrypt))
    }

    ghost function View(encrypt: bool): Stream
      reads this
    {
      Stream(encrypt, key, nonce, expHmac, consumed, done)
    }
  }

  datatype IoResult = Ok(n: nat) | HmacMismatch | ReaderError | WouldBlock | Unsupported

  function ResultOf(reply: Reply): IoResult {
    match reply
    case Filled(bytes) => Ok(|bytes|)
    case Closed => Ok(0)
    case Rejected => HmacMismatch
    case Failed => ReaderError
    case NotReady => WouldBlock
  }

  /** What a reply leaves in a buffer that was filled up to `start`. */
  ghost predicate BufferAfter(before: Octets, after: Octets, start: nat, reply: Reply)
    requires start <= |before|
  {
    if reply.Filled? then
      && |after| == |before| && start + |reply.bytes| <= |before|
      && after[..start] == before[..start] && after[start..start + |reply.bytes|] == reply.bytes
      && after[start + |reply.bytes|..] == before[start + |reply.bytes|..]
    else after == before
  }

  /** What a poll takes from the inner reader. It only ends early on a buffer without room. */
  ghost predicate Taken(before: Octets, after: Octets, room: nat, poll: Poll) {
    match poll
    case Data(bytes) => bytes != [] && |bytes| <= room && before == bytes + after
    case End => after == before && (before == [] || room == 0)
    case _ => after == before
  }

  /** A read that brings nothing uses up a turn of the inner reader, and only a failing turn fails. */
  predicate ScheduleAfter(before: seq<Turn>, after: seq<Turn>, r: IoResult) {
    && |after| <= |before| && (r.ReaderError? || r.WouldBlock? ==> |after| < |before|)
    && (r.ReaderError? ==> Fail in before) && (Fail in after ==> Fail in before)
  }

  class AesCtrBlockCipher {
    const c: Crypto
    var encrypt: bool
    var state: CipherState?

    constructor (c: Crypto)
      ensures this.c == c && state == null && !encrypt
    {
      this.c, encrypt, state := c, false, null;
    }

    ghost predicate Valid()
      reads this, state
    {
      state != null ==> state.Valid(c, encrypt)
    }

    ghost function View(): Stream
      requires state != null
      reads this, state
    {
      state.View(encrypt)
    }

    /** `init`, under `encrypt` and `decrypt`. */
    method Start(encrypting: bool, reader: ByteSource, opts: Options, random: Octets)
      returns (r: Result<Options, CipherError>)
      requires Valid()
      modifies this
      ensures Valid()
      ensures r.Success? <==> Init(encrypting, opts, random).Success?
      ensures r.Success? ==>
                && fresh(state) && state.reader == reader
                && View() == Init(encrypting, opts, random).value.0 && r.value == Init(encrypting, opts, random).value.1
      ensures r.Failure? ==>
                r.error == Init(encrypting, opts, random).error && state == old(state) && encrypt == old(encrypt)
    {
      var key := opts.private.symmetricKey;
      if |key| != AES256_KEY_SIZE {
        return Failure(BadKeyLength);
      }
      if !encrypting && opts.public.hmac == [] {
        return Failure(NoHmac);
      }
      var nonce := random;
      match opts.GetOpt(NONCE) {
        case Some(v) =>
          if |v| != AES256_NONCE_SIZE {
            return Failure(BadNonceLength);
          }
          nonce := v;
        case None =>
      }
      encrypt := encrypting;
      state := new CipherState(key, nonce, opts.public.hmac, reader);
      var recorded := opts.private.cipherOptions;
      if NONCE !in recorded {
        recorded := recorded[NONCE := nonce];
      }
      return Success(opts.(private := opts.private.(cipherOptions := recorded)));
    }

    method FinalizedLbco(opts: Options) returns (r: Result<Options, CipherError>)
      requires Valid()
      ensures r == if state == null then Failure(NotInitialized) else Finalize(View(), opts)
      ensures r.Success? <==> state != null && state.done
    {
      if state == null {
        return Failure(NotInitialized);
      }
      if !state.done {
        return Failure(NotDone);
      }
      return Success(opts.(public := opts.public.(hmac := state.expHmac)));
    }

    /** A chunk that has arrived: the MAC takes the ciphertext, the keystream the rest. */
    method Crypt(buf: array<bv8>, start: nat, end: nat)
      requires Valid() && state != null && start <= end <= buf.Length
      modifies state, buf
      ensures Valid() && state == old(state)
      ensures View() == old(View()).(consumed := old(View()).consumed + old(buf[start..end]))
      ensures buf[start..end] ==
              ApplyKeystream(c, state.key, state.nonce, |old(View()).consumed|, old(buf[start..end]))
      ensures buf[..start] == old(buf[..start]) && buf[end..] == old(buf[end..])
    {
      ghost var chunk := buf[start..end];
      if !encrypt {
        state.macInput := state.macInput + buf[start..end];
        ApplyInPlace(c, state.key, state.nonce, state.position, buf, start, end);
      } else {
        ApplyInPlace(c, state.key, state.nonce, state.position, buf, start, end);
        state.macInput := state.macInput + buf[start..end];
      }
      state.position := state.position + (end - start);
      ApplyConcat(c, state.key, state.nonce, 0, state.consumed, chunk);
      state.consumed := state.consumed + chunk;
    }

    /** The same as a step of the stream machine. */
    method Deliver(buf: array<bv8>, start: nat, n: nat)
      requires Valid() && state != null && !state.done && start + n <= buf.Length
      modifies state, buf
      ensures Valid() && state == old(state)
      ensures var chunk := old(buf[start..start + n]);
              && View() == Feed(c, old(View()), Data(chunk)).0
              && Feed(c, old(View()), Data(chunk)).1 == Filled(buf[start..start + n])
      ensures buf[..start] == old(buf[..start]) && buf[start + n..] == old(buf[start + n..])
    {
      Crypt(buf, start, start + n);
    }

    /** The end of the inner stream: publish the MAC, or let it give the verdict. */
    method Conclude() returns (r: IoResult)
      requires Valid() && state != null && !state.done
      modifies state
      ensures Valid() && state == old(state)
      ensures View() == Feed(c, old(View()), End).0 && r == ResultOf(Feed(c, old(View()), End).1)
    {
      state.done := true;
      if encrypt {
        state.expHmac := c.mac(state.key, state.macInput);
      } else if c.mac(state.key, state.macInput) != state.expHmac {
        return HmacMismatch;
      }
      return Ok(0);
    }

    /** The part `read` and `poll_read` have in common: one poll of the inner reader, from `start` on. */
    method ReadInto(buf: array<bv8>, start: nat) returns (r: IoResult, ghost poll: Poll)
      requires Valid() && state != null && start <= buf.Length
      modifies state, state.reader, buf
      ensures Valid() && state == old(state)
      ensures var (st, reply) := Feed(c, old(View()), poll);
              View() == st && r == ResultOf(reply) && BufferAfter(old(buf[..]), buf[..], start, reply)
      ensures old(state.done) ==> state.reader.data == old(state.reader.data)
      ensures !old(state.done) ==> Taken(old(state.reader.data), state.reader.data, buf.Length - start, poll)
      ensures ScheduleAfter(old(state.reader.schedule), state.reader.schedule, r)
    {
      if state.done {
        return Ok(0), End;
      }
      var got := state.reader.Read(buf, start);
      match got {
        case Error => return ReaderError, Fault;
        case Later => return WouldBlock, Pending;
        case Bytes(n) =>
          if n == 0 {
            r := Conclude();
            return r, End;
          }
          ghost var chunk := buf[start..start + n];
          assert old(state.reader.data) == chunk + state.reader.data;
          Deliver(buf, start, n);
          return Ok(n), Data(chunk);
      }
    }

    /** The blocking `read`, into the whole buffer. An inner reader that waits answers later. */
    method Read(buf: array<bv8>) returns (r: IoResult, ghost poll: Poll)
      requires Valid()
      modifies state, (if state == null then null else state.reader), buf
      ensures Valid() && state == old(state)
      ensures state == null ==> r == Unsupported && buf[..] == old(buf[..])
      ensures state != null ==>
                var (st, reply) := Feed(c, old(View()), poll);
                View() == st && r == ResultOf(reply) && BufferAfter(old(buf[..]), buf[..], 0, reply)
      ensures state != null && old(state.done) ==> state.reader.data == old(state.reader.data)
      ensures state != null && !old(state.done) ==>
                Taken(old(state.reader.data), state.reader.data, buf.Length, poll)
      ensures state != null && !old(state.done) && buf.Length == 0 && (r.Ok? || r.HmacMismatch?) ==>
                state.done && state.reader.data == old(state.reader.data)
      ensures state != null ==> ScheduleAfter(old(state.reader.schedule), state.reader.schedule, r)
    {
      if state == null {
        return Unsupported, End;
      }
      r, poll := ReadInto(buf, 0);
    }

    /** The asynchronous `poll_read`, into the unfilled part of the buffer. */
    method PollRead(buf: ReadBuf) returns (r: IoResult, ghost poll: Poll)
      requires Valid() && buf.filled <= buf.buf.Length
      modifies state, (if state == null then null else state.reader), buf, buf.buf
      ensures Valid() && state == old(state)
      ensures state == null ==> r == Unsupported && buf.filled == old(buf.filled) && buf.buf[..] == old(buf.buf[..])
      ensures state != null ==>
                var (st, reply) := Feed(c, old(View()), poll);
                && View() == st && r == ResultOf(reply)
                && BufferAfter(old(buf.buf[..]), buf.buf[..], old(buf.filled), reply)
                && buf.filled == old(buf.filled) + (if reply.Filled? then |reply.bytes| else 0)
      ensures state != null && old(state.done) ==> state.reader.data == old(state.reader.data)
      ensures state != null && !old(state.done) ==>
                Taken(old(state.reader.data), state.reader.data, buf.buf.Length - old(buf.filled), poll)
      ensures state != null && !old(state.done) && old(buf.filled) == buf.buf.Length && (r.Ok? || r.HmacMismatch?) ==>
                state.done && state.reader.data == old(state.reader.data)
    {
      if state == null {
        return Unsupported, End;
      }
      r, poll := ReadInto(buf.buf, buf.filled);
      if r.Ok? {
        buf.filled := buf.filled + r.n;
      }
    }
  }

  /** What was read and what is left make up the inner reader's data. */
  lemma {:induction false} NothingLost(remaining: seq<Octets>, rooms: seq<nat>, polls: seq<Poll>)
    requires |remaining| == |rooms| + 1 == |polls| + 1 && NoEnd(polls)
    requires forall i :: 0 <= i < |polls| ==> Taken(remaining[i], remaining[i + 1], rooms[i], polls[i])
    ensures DataOf(polls) + remaining[|polls|] == remaining[0]
    decreases |polls|
  {
    if polls == [] {
      assert DataOf(polls) + remaining[0] == remaining[0];
    } else {
      assert polls[0] in polls && Taken(remaining[0], remaining[1], rooms[0], polls[0]);
      forall i | 0 <= i < |polls[1..]|
        ensures Taken(remaining[1..][i], remaining[1..][i + 1], rooms[1..][i], polls[1..][i])
      {
        assert Taken(remaining[i + 1], remaining[i + 1 + 1], rooms[i + 1], polls[i + 1]);
      }
      NothingLost(remaining[1..], rooms[1..], polls[1..]);
      var chunk := if polls[0].Data? then polls[0].bytes else [];
      assert [] + remaining[1] == remaining[1];
      assert chunk + DataOf(polls[1..]) + remaining[|polls|] == chunk + (DataOf(polls[1..]) + remaining[|polls|]);
    }
  }

  /**
   * Reading up to the first end of stream brings exactly the inner reader's data if and only if the
   * last read had room in its buffer, or there was nothing left to read anyway.
   */
  lemma ReadsEverythingIff(remaining: seq<Octets>, rooms: seq<nat>, body: seq<Poll>)
    requires |remaining| - 1 == |rooms| == |body| + 1 && NoEnd(body)
    requires forall i :: 0 <= i < |rooms| ==> Taken(remaining[i], remaining[i + 1], rooms[i], (body + [End])[i])
    ensures DataOf(body + [End]) == remaining[0] <==> rooms[|body|] > 0 || remaining[|body|] == []
  {
    var n := |body|;
    assert Taken(remaining[n], remaining[n + 1], rooms[n], (body + [End])[n]);
    forall i | 0 <= i < n
      ensures Taken(remaining[..n + 1][i], remaining[..n + 1][i + 1], rooms[..n][i], body[i])
    {
      assert Taken(remaining[i], remaining[i + 1], rooms[i], (body + [End])[i]);
    }
    NothingLost(remaining[..n + 1], rooms[..n], body);
    DataSnoc(body, End);
    assert DataOf(body) + [] == DataOf(body);
    assert |DataOf(body) + remaining[n]| == |DataOf(body)| + |remaining[n]|;
    assert remaining[n] == [] ==> DataOf(body) + remaining[n] == DataOf(body);
  }

  /** The handler: it generates the key, names the cipher, and hands over to the block cipher. */
  class LayerBlockCipherHandler {
    const cipher: AesCtrBlockCipher

    constructor (c: Crypto)
      ensures fresh(cipher) && cipher.c == c && cipher.state == null
    {
      cipher := new AesCtrBlockCipher(c);
    }

    method Encrypt(reader: ByteSource, typ: string, opts: Options, key: Octets, random: Octets)
      returns (r: Result<(), CipherError>, opts': Options)
      requires cipher.Valid()
      modifies cipher
      ensures cipher.Valid()
      ensures r.Success? <==> EncryptWith(typ, opts, key, random).Success?
      ensures r.Success? ==>
                && fresh(cipher.state) && cipher.state.reader == reader
                && (cipher.View(), opts') == EncryptWith(typ, opts, key, random).value
      ensures r.Failure? ==> r.error == EncryptWith(typ, opts, key, random).error && cipher.state == old(cipher.state)
      ensures r.Failure? ==> opts' == if typ == AES256CTR then WithKey(opts, key) else opts
    {
      opts' := opts;
      if typ != AES256CTR {
        return Failure(UnsupportedCipher), opts';
      }
      opts' := opts'.(private := opts'.private.(symmetricKey := key));
      opts' := opts'.(public := opts'.public.(cipherType := AES256CTR));
      var started := cipher.Start(true, reader, opts', random);
      match started {
        case Failure(error) => return Failure(error), opts';
        case Success(recorded) => return Success(()), recorded;
      }
    }

    method Decrypt(reader: ByteSource, opts: Options, random: Octets)
      returns (r: Result<(), CipherError>, opts': Options)
      requires cipher.Valid()
      modifies cipher
      ensures cipher.Valid()
      ensures r.Success? <==> DecryptWith(opts, random).Success?
      ensures r.Success? ==>
                && fresh(cipher.state) && cipher.state.reader == reader
                && (cipher.View(), opts') == DecryptWith(opts, random).value
      ensures r.Failure? ==>
                r.error == DecryptWith(opts, random).error && cipher.state == old(cipher.state) && opts' == opts
    {
      if opts.public.cipherType != AES256CTR {
        return Failure(UnsupportedCipher), opts;
      }
      var started := cipher.Start(false, reader, opts, random);
      match started {
        case Failure(error) => return Failure(error), opts;
        case Success(recorded) => return Success(()), recorded;
      }
    }
  }

  // ---------- draining a cipher ----------

  /** One poll more, with room in the buffer: what was read and what is left still make up all the data. */
  lemma DrainOne(body: seq<Poll>, poll: Poll, all: Octets, before: Octets, after: Octets, room: nat)
    requires NoEnd(body) && DataOf(body) + before == all && Taken(before, after, room, poll) && room > 0
    ensures poll.End? ==> DataOf(body) == all
    ensures !poll.End? ==> NoEnd(body + [poll]) && DataOf(body + [poll]) + after == all
  {
    DataSnoc(body, poll);
    if poll.End? {
      assert DataOf(body) + [] == DataOf(body);
    } else {
      var chunk := if poll.Data? then poll.bytes else [];
      assert [] + after == after;
      assert DataOf(body) + chunk + after == DataOf(body) + (chunk + after);
    }
  }

  /** One read into a buffer of its own. */
  method ReadChunk(cipher: AesCtrBlockCipher, size: nat) returns (chunk: Octets, r: IoResult, ghost poll: Poll)
    requires cipher.Valid() && cipher.state != null && !cipher.state.done && size > 0
    modifies cipher.state, cipher.state.reader
    ensures cipher.Valid() && cipher.state == old(cipher.state)
    ensures var (st, reply) := Feed(cipher.c, old(cipher.View()), poll);
            && cipher.View() == st && r == ResultOf(reply)
            && chunk == if reply.Filled? then reply.bytes else []
    ensures Taken(old(cipher.state.reader.data), cipher.state.reader.data, size, poll)
    ensures ScheduleAfter(old(cipher.state.reader.schedule), cipher.state.reader.schedule, r)
  {
    var buf := new bv8[size];
    r, poll := cipher.Read(buf);
    chunk := if r.Ok? then buf[..r.n] else [];
  }

  /**
   * Read a cipher to its end, through buffers of any sizes, asking again when the inner reader is
   * not ready. What comes out is what the stream machine puts out for all of the reader's data.
   */
  method Drain(cipher: AesCtrBlockCipher, sizes: nat -> nat)
    returns (out: Octets, r: IoResult, ghost body: seq<Poll>)
    requires cipher.Valid() && cipher.state != null && !cipher.state.done && forall i: nat :: sizes(i) > 0
    modifies cipher.state, cipher.state.reader
    ensures cipher.Valid() && cipher.state == old(cipher.state)
    ensures NoEnd(body)
    ensures r == Ok(0) || r.HmacMismatch? || (r.ReaderError? && Fail in old(cipher.state.reader.schedule))
    ensures !r.ReaderError? ==>
              && (cipher.View(), out) == FeedAll(cipher.c, old(cipher.View()), body + [End])
              && DataOf(body) == old(cipher.state.reader.data)
              && r == ResultOf(Feed(cipher.c, FeedAll(cipher.c, old(cipher.View()), body).0, End).1)
  {
    out, body := [], [];
    ghost var start, all := cipher.View(), cipher.state.reader.data;
    var source := cipher.state.reader;
    var i := 0;
    while true
      invariant cipher.Valid() && cipher.state == old(cipher.state) && !cipher.state.done
      invariant NoEnd(body) && (cipher.View(), out) == FeedAll(cipher.c, start, body)
      invariant DataOf(body) + source.data == all
      invariant Fail in source.schedule ==> Fail in old(cipher.state.reader.schedule)
      decreases |source.schedule| + |source.data|
    {
      ghost var before := source.data;
      ghost var poll;
      var chunk;
      chunk, r, poll := ReadChunk(cipher, sizes(i));
      FeedSnoc(cipher.c, start, body, poll);
      DrainOne(body, poll, all, before, source.data, sizes(i));
      out, i := out + chunk, i + 1;
      if r == Ok(0) || r.HmacMismatch? || r.ReaderError? {
        return;
      }
      body := body + [poll];
    }
  }

  /** Encrypt all of some data, from the handler to the finalized options. */
  method EncryptAll(c: Crypto, plain: Octets, turns: seq<Turn>, sizes: nat -> nat, opts: Options, key: Octets, random: Octets)
    returns (r: Option<(Octets, Options)>, ghost body: seq<Poll>)
    requires forall i: nat :: sizes(i) > 0
    ensures r.None? ==> EncryptWith(AES256CTR, opts, key, random).Failure? || Fail in turns
    ensures r.Some? ==>
              && EncryptWith(AES256CTR, opts, key, random).Success? && NoEnd(body) && DataOf(body) == plain
              && var (start, opts1) := EncryptWith(AES256CTR, opts, key, random).value;
                 var (last, out) := FeedAll(c, start, body + [End]);
                 r.value.0 == out && Finalize(last, opts1) == Success(r.value.1)
  {
    body := [];
    var handler := new LayerBlockCipherHandler(c);
    var source := new ByteSource(plain, turns);
    var started, opts1 := handler.Encrypt(source, AES256CTR, opts, key, random);
    if started.Failure? {
      return None, body;
    }
    var out, end;
    ghost var start := handler.cipher.View();
    out, end, body := Drain(handler.cipher, sizes);
    if end.ReaderError? {
      return None, body;
    }
    StreamToEnd(c, start, body);
    var finalized := handler.cipher.FinalizedLbco(opts1);
    return Some((out, finalized.value)), body;
  }

  /** Decrypt all of some data, up to the verdict. */
  method DecryptAll(c: Crypto, data: Octets, turns: seq<Turn>, sizes: nat -> nat, opts: Options, random: Octets)
    returns (r: Option<Octets>, ghost body: seq<Poll>)
    requires forall i: nat :: sizes(i) > 0
    ensures r.None? && DecryptWith(opts, random).Success? && Fail !in turns ==>
              NoEnd(body) && DataOf(body) == data &&
              Feed(c, FeedAll(c, DecryptWith(opts, random).value.0, body).0, End).1 != Closed
    ensures r.Some? ==>
              && DecryptWith(opts, random).Success? && NoEnd(body) && DataOf(body) == data
              && r.value == FeedAll(c, DecryptWith(opts, random).value.0, body + [End]).1
              && Feed(c, FeedAll(c, DecryptWith(opts, random).value.0, body).0, End).1 == Closed
  {
    body := [];
    var handler := new LayerBlockCipherHandler(c);
    var source := new ByteSource(data, turns);
    var started, _ := handler.Decrypt(source, opts, random);
    if started.Failure? {
      return None, body;
    }
    var out, end;
    out, end, body := Drain(handler.cipher, sizes);
    return if end.Ok? then Some(out) else None, body;
  }

  /**
   * Encrypting all of some data and decrypting the result gives the data back, whatever the sizes
   * of the buffers and the chunks and waits of the readers on both sides. It can only fail where
   * encryption does not start or a reader fails.
   */
  method EncryptThenDecrypt(c: Crypto, plain: Octets, opts: Options, key: Octets, random: Octets, random': Octets,
                            turns: seq<Turn>, turns': seq<Turn>, sizes: nat -> nat, sizes': nat -> nat)
    returns (r: Option<Octets>)
    requires c.Valid() && |random| == AES256_NONCE_SIZE
    requires (forall i: nat :: sizes(i) > 0) && forall i: nat :: sizes'(i) > 0
    ensures r.Some? ==> r.value == plain
    ensures r.None? ==> EncryptWith(AES256CTR, opts, key, random).Failure? || Fail in turns || Fail in turns'
  {
    var encrypted, body := EncryptAll(c, plain, turns, sizes, opts, key, random);
    if encrypted.None? {
      return None;
    }
    DecryptStarts(c, opts, key, random, random', body);
    ghost var body';
    r, body' := DecryptAll(c, encrypted.value.0, turns', sizes', encrypted.value.1, random');
    if NoEnd(body') && DataOf(body') == encrypted.value.0 {
      assert body + [End] + [] == body + [End] && body' + [End] + [] == body' + [End];
      RoundTrip(c, opts, key, random, random', body, [], body', []);
    }
  }
}
