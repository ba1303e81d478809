/**
 * The streaming layer cipher, independent of how its input is cut into chunks: AES in counter
 * mode (NIST SP 800-38A, section 6.5) with an HMAC (RFC 2104, section 2) of the ciphertext.
 */
module LayerCipher {
  import opened Results

  type Octets = seq<bv8>

  const AES256_KEY_SIZE: nat := 32
  const AES256_NONCE_SIZE: nat := 16
  const AES256CTR: string := "AES_256_CTR_HMAC_SHA256"
  const NONCE: string := "nonce"

  /** The keystream byte at each position and the MAC of each message, as arbitrary functions. */
  datatype Crypto = Crypto(keystream: (Octets, Octets, nat) -> bv8, mac: (Octets, Octets) -> Octets) {
    ghost predicate Valid() {
      forall key, message :: |mac(key, message)| == 32
    }
  }

  /** `apply_keystream` to the bytes standing at `pos` in the stream. */
  function ApplyKeystream(c: Crypto, key: Octets, nonce: Octets, pos: nat, s: Octets): (r: Octets)
    ensures |r| == |s|
    ensures forall i :: 0 <= i < |s| ==> r[i] == s[i] ^ c.keystream(key, nonce, pos + i)
  {
    seq(|s|, i requires 0 <= i < |s| => s[i] ^ c.keystream(key, nonce, pos + i))
  }

  lemma ApplyConcat(c: Crypto, key: Octets, nonce: Octets, pos: nat, s: Octets, t: Octets)
    ensures ApplyKeystream(c, key, nonce, pos, s + t) ==
            ApplyKeystream(c, key, nonce, pos, s) + ApplyKeystream(c, key, nonce, pos + |s|, t)
  {
  }

  /** Applying the keystream twice at the same position is the identity. */
  lemma ApplyTwice(c: Crypto, key: Octets, nonce: Octets, pos: nat, s: Octets)
    ensures ApplyKeystream(c, key, nonce, pos, ApplyKeystream(c, key, nonce, pos, s)) == s
  {
    var once := ApplyKeystream(c, key, nonce, pos, s);
    forall i | 0 <= i < |s|
      ensures ApplyKeystream(c, key, nonce, pos, once)[i] == s[i]
    {
      XorTwice(s[i], c.keystream(key, nonce, pos + i));
    }
  }

  lemma XorTwice(x: bv8, k: bv8)
    ensures (x ^ k) ^ k == x
  {
  }

  // ---------- the stream, as a machine over what the inner reader does ----------

  /** What one call of the inner reader gives. No bytes at all are taken for the end. */
  datatype Poll = Data(bytes: Octets) | End | Fault | Pending

  /** What the cipher answers. */
  datatype Reply = Filled(bytes: Octets) | Closed | Rejected | Failed | NotReady

  /** The bytes read so far stand for both the keystream position and the running MAC. */
  datatype Stream = Stream(encrypt: bool, key: Octets, nonce: Octets, expected: Octets, consumed: Octets, done: bool)

  /** Everything put out so far. */
  function Output(c: Crypto, st: Stream): Octets {
    ApplyKeystream(c, st.key, st.nonce, 0, st.consumed)
  }

  function Ciphertext(c: Crypto, st: Stream): Octets {
    if st.encrypt then Output(c, st) else st.consumed
  }

  function Feed(c: Crypto, st: Stream, poll: Poll): (Stream, Reply) {
    if st.done then (st, Closed)
    else
      match poll
      case Data(bytes) =>
        (st.(consumed := st.consumed + bytes),
         Filled(ApplyKeystream(c, st.key, st.nonce, |st.consumed|, bytes)))
      case End =>
        var tag := c.mac(st.key, Ciphertext(c, st));
        if st.encrypt then (st.(done := true, expected := tag), Closed)
        else (st.(done := true), if tag == st.expected then Closed else Rejected)
      case Fault => (st, Failed)
      case Pending => (st, NotReady)
  }

  /**
   * What a poll does: a stream that is done answers with its end, whatever the inner reader would do;
   * otherwise an error and a wait are passed on without effect, and data comes out as many bytes.
   */
  lemma Replies(c: Crypto, st: Stream, poll: Poll)
    ensures st.done ==> Feed(c, st, poll) == (st, Closed)
    ensures !st.done && poll.Fault? ==> Feed(c, st, poll) == (st, Failed)
    ensures !st.done && poll.Pending? ==> Feed(c, st, poll) == (st, NotReady)
    ensures !st.done && poll.Data? ==>
              Feed(c, st, poll).1.Filled? && |Feed(c, st, poll).1.bytes| == |poll.bytes| && !Feed(c, st, poll).0.done
    ensures !st.done && poll.End? ==>
              Feed(c, st, poll).0.done && Feed(c, st, poll).1 in {Closed, Rejected} &&
              (st.encrypt ==> Feed(c, st, poll).1 == Closed)
  {
  }

  /** The state after a list of polls, and everything the replies carried. */
  function FeedAll(c: Crypto, st: Stream, polls: seq<Poll>): (Stream, Octets)
    decreases |polls|
  {
    if polls == [] then (st, [])
    else
      var (st', reply) := Feed(c, st, polls[0]);
      var (last, rest) := FeedAll(c, st', polls[1..]);
      (last, (if reply.Filled? then reply.bytes else []) + rest)
  }

  /** The bytes that the polls bring before any end of stream. */
  function DataOf(polls: seq<Poll>): Octets {
    if polls == [] || polls[0].End? then []
    else (if polls[0].Data? then polls[0].bytes else []) + DataOf(polls[1..])
  }

  predicate NoEnd(polls: seq<Poll>) {
    forall q <- polls :: !q.End?
  }

  /** Before the end, only the bytes matter: not how they are cut, nor faults and waits between them. */
  lemma {:induction false} ChunkIndependent(c: Crypto, st: Stream, polls: seq<Poll>)
    requires !st.done && NoEnd(polls)
    ensures FeedAll(c, st, polls) ==
            (st.(consumed := st.consumed + DataOf(polls)),
             ApplyKeystream(c, st.key, st.nonce, |st.consumed|, DataOf(polls)))
    decreases |polls|
  {
    if polls == [] {
      assert st.consumed + [] == st.consumed;
    } else {
      assert polls[0] in polls;
      var chunk := if polls[0].Data? then polls[0].bytes else [];
      var st' := st.(consumed := st.consumed + chunk);
      assert st.consumed + [] == st.consumed;
      assert Feed(c, st, polls[0]).0 == st';
      ChunkIndependent(c, st', polls[1..]);
      OneMoreChunk(c, st, chunk, DataOf(polls[1..]));
    }
  }

  lemma OneMoreChunk(c: Crypto, st: Stream, chunk: Octets, rest: Octets)
    ensures st.consumed + chunk + rest == st.consumed + (chunk + rest)
    ensures ApplyKeystream(c, st.key, st.nonce, |st.consumed|, chunk + rest) ==
            ApplyKeystream(c, st.key, st.nonce, |st.consumed|, chunk) +
            ApplyKeystream(c, st.key, st.nonce, |st.consumed + chunk|, rest)
  {
    ApplyConcat(c, st.key, st.nonce, |st.consumed|, chunk, rest);
  }

  /** Once done, nothing changes and every further read is an ordinary end of stream. */
  lemma {:induction false} DoneIsFinal(c: Crypto, st: Stream, polls: seq<Poll>)
    requires st.done
    ensures FeedAll(c, st, polls) == (st, [])
    decreases |polls|
  {
    if polls != [] {
      DoneIsFinal(c, st, polls[1..]);
      assert Feed(c, st, polls[0]) == (st, Closed);
      assert [] + FeedAll(c, st, polls[1..]).1 == [];
    }
  }

  /** A failed check is reported once: a reader that reads on sees a clean end of stream. */
  lemma RejectedOnlyOnce(c: Crypto, st: Stream, poll: Poll)
    requires !st.done && !st.encrypt && c.mac(st.key, st.consumed) != st.expected
    ensures Feed(c, st, End).1 == Rejected
    ensures Feed(c, Feed(c, st, End).0, poll) == (Feed(c, st, End).0, Closed)
  {
  }

  lemma {:induction false} FeedAllConcat(c: Crypto, st: Stream, xs: seq<Poll>, ys: seq<Poll>)
    ensures FeedAll(c, st, xs + ys).0 == FeedAll(c, FeedAll(c, st, xs).0, ys).0
    ensures FeedAll(c, st, xs + ys).1 == FeedAll(c, st, xs).1 + FeedAll(c, FeedAll(c, st, xs).0, ys).1
    decreases |xs|
  {
    if xs == [] {
      assert xs + ys == ys;
      assert [] + FeedAll(c, st, ys).1 == FeedAll(c, st, ys).1;
    } else {
      assert (xs + ys)[1..] == xs[1..] + ys && (xs + ys)[0] == xs[0];
      var (st', reply) := Feed(c, st, xs[0]);
      FeedAllConcat(c, st', xs[1..], ys);
      var head := if reply.Filled? then reply.bytes else [];
      var (mid, out) := FeedAll(c, st', xs[1..]);
      assert head + (out + FeedAll(c, mid, ys).1) == head + out + FeedAll(c, mid, ys).1;
    }
  }

  /** One poll more. */
  lemma FeedSnoc(c: Crypto, st: Stream, polls: seq<Poll>, poll: Poll)
    ensures var (mid, out) := FeedAll(c, st, polls);
            var (last, reply) := Feed(c, mid, poll);
            FeedAll(c, st, polls + [poll]) == (last, out + if reply.Filled? then reply.bytes else [])
  {
    FeedAllConcat(c, st, polls, [poll]);
    FeedOne(c, FeedAll(c, st, polls).0, poll);
  }

  lemma FeedOne(c: Crypto, st: Stream, poll: Poll)
    ensures var (last, reply) := Feed(c, st, poll);
            FeedAll(c, st, [poll]) == (last, if reply.Filled? then reply.bytes else [])
  {
    var (last, reply) := Feed(c, st, poll);
    var head := if reply.Filled? then reply.bytes else [];
    assert [poll][1..] == [] && FeedAll(c, last, []) == (last, []);
    assert head + [] == head;
  }

  /** After the end nothing comes out and nothing changes. */
  lemma EndThenRest(c: Crypto, st: Stream, rest: seq<Poll>)
    requires !st.done
    ensures FeedAll(c, st, [End] + rest) == (Feed(c, st, End).0, [])
  {
    FeedOne(c, st, End);
    FeedAllConcat(c, st, [End], rest);
    DoneIsFinal(c, Feed(c, st, End).0, rest);
  }

  lemma {:induction false} DataSnoc(polls: seq<Poll>, poll: Poll)
    requires NoEnd(polls)
    ensures DataOf(polls + [poll]) == DataOf(polls) + if poll.Data? then poll.bytes else []
    decreases |polls|
  {
    if polls == [] {
      assert polls + [poll] == [poll];
    } else {
      assert polls[0] in polls && (polls + [poll])[0] == polls[0] && (polls + [poll])[1..] == polls[1..] + [poll];
      DataSnoc(polls[1..], poll);
    }
  }

  /** The whole life of a stream: its data, its end, and anything after that. */
  lemma WholeStream(c: Crypto, st: Stream, body: seq<Poll>, rest: seq<Poll>)
    requires !st.done && NoEnd(body)
    ensures var full := st.(consumed := st.consumed + DataOf(body));
            FeedAll(c, st, body + [End] + rest) ==
            (Feed(c, full, End).0, ApplyKeystream(c, st.key, st.nonce, |st.consumed|, DataOf(body)))
  {
    var full := st.(consumed := st.consumed + DataOf(body));
    var out := ApplyKeystream(c, st.key, st.nonce, |st.consumed|, DataOf(body));
    ChunkIndependent(c, st, body);
    EndThenRest(c, full, rest);
    FeedAllConcat(c, st, body, [End] + rest);
    assert body + [End] + rest == body + ([End] + rest);
    assert out + [] == out;
  }

  // ---------- options ----------

  datatype PrivateOptions = PrivateOptions(symmetricKey: Octets, cipherOptions: map<string, Octets>, digest: string)
  datatype PublicOptions = PublicOptions(cipherType: string, cipherOptions: map<string, Octets>, hmac: Octets)
  datatype Options = Options(public: PublicOptions, private: PrivateOptions) {
    /** The public value of an option, else the private one. */
    function GetOpt(key: string): Option<Octets> {
      if key in public.cipherOptions then Some(public.cipherOptions[key])
      else if key in private.cipherOptions then Some(private.cipherOptions[key])
      else None
    }
  }

  datatype CipherError = BadKeyLength | NoHmac | BadNonceLength | UnsupportedCipher | NotInitialized | NotDone

  /** `init`: the fresh stream, and the options with the nonce recorded if none was. */
  function Init(encrypt: bool, opts: Options, random: Octets): Result<(Stream, Options), CipherError> {
    if |opts.private.symmetricKey| != AES256_KEY_SIZE then Failure(BadKeyLength)
    else if !encrypt && opts.public.hmac == [] then Failure(NoHmac)
    else if opts.GetOpt(NONCE).Some? && |opts.GetOpt(NONCE).value| != AES256_NONCE_SIZE then Failure(BadNonceLength)
    else
      var nonce := if opts.GetOpt(NONCE).Some? then opts.GetOpt(NONCE).value else random;
      var recorded :=
        if NONCE in opts.private.cipherOptions then opts.private.cipherOptions
        else opts.private.cipherOptions[NONCE := nonce];
      Success((Stream(encrypt, opts.private.symmetricKey, nonce, opts.public.hmac, [], false),
               opts.(private := opts.private.(cipherOptions := recorded))))
  }

  /** The handler's `encrypt`, given the key it generates. */
  function EncryptWith(typ: string, opts: Options, key: Octets, random: Octets): Result<(Stream, Options), CipherError> {
    if typ != AES256CTR then Failure(UnsupportedCipher)
    else Init(true, WithKey(opts, key), random)
  }

  function WithKey(opts: Options, key: Octets): Options {
    opts.(private := opts.private.(symmetricKey := key), public := opts.public.(cipherType := AES256CTR))
  }

  function DecryptWith(opts: Options, random: Octets): Result<(Stream, Options), CipherError> {
    if opts.public.cipherType != AES256CTR then Failure(UnsupportedCipher) else Init(false, opts, random)
  }

  function Finalize(st: Stream, opts: Options): Result<Options, CipherError> {
    if !st.done then Failure(NotDone) else Success(opts.(public := opts.public.(hmac := st.expected)))
  }

  /** The key, and in either map the nonce, have the lengths of the cipher. */
  predicate LengthsOk(opts: Options) {
    && |opts.private.symmetricKey| == 32
    && (NONCE in opts.public.cipherOptions ==> |opts.public.cipherOptions[NONCE]| == 16)
    && (NONCE !in opts.public.cipherOptions && NONCE in opts.private.cipherOptions ==>
          |opts.private.cipherOptions[NONCE]| == 16)
  }

  /**
   * `init` succeeds exactly with good lengths and, to decrypt, an HMAC. The public nonce comes first,
   * then the private one, and a random one only if there is neither.
   */
  lemma InitIff(encrypt: bool, opts: Options, random: Octets)
    ensures Init(encrypt, opts, random).Success? <==> LengthsOk(opts) && (encrypt || opts.public.hmac != [])
    ensures Init(encrypt, opts, random).Failure? ==>
              Init(encrypt, opts, random).error ==
              if |opts.private.symmetricKey| != 32 then BadKeyLength
              else if !encrypt && opts.public.hmac == [] then NoHmac
              else BadNonceLength
    ensures Init(encrypt, opts, random).Success? ==>
              var st := Init(encrypt, opts, random).value.0;
              && st.encrypt == encrypt && st.key == opts.private.symmetricKey && st.expected == opts.public.hmac
              && st.consumed == [] && !st.done
              && (NONCE in opts.public.cipherOptions ==> st.nonce == opts.public.cipherOptions[NONCE])
              && (NONCE !in opts.public.cipherOptions && NONCE in opts.private.cipherOptions ==>
                    st.nonce == opts.private.cipherOptions[NONCE])
              && (NONCE !in opts.public.cipherOptions && NONCE !in opts.private.cipherOptions ==> st.nonce == random)
  {
  }

  /** The handler's own checks: the cipher's name, on either side. */
  lemma HandlerIff(typ: string, opts: Options, key: Octets, random: Octets)
    ensures EncryptWith(typ, opts, key, random).Success? <==>
            typ == "AES_256_CTR_HMAC_SHA256" && LengthsOk(opts.(private := opts.private.(symmetricKey := key)))
    ensures DecryptWith(opts, random).Success? <==>
            opts.public.cipherType == "AES_256_CTR_HMAC_SHA256" && LengthsOk(opts) && opts.public.hmac != []
    ensures typ != "AES_256_CTR_HMAC_SHA256" ==> EncryptWith(typ, opts, key, random) == Failure(UnsupportedCipher)
    ensures opts.public.cipherType != "AES_256_CTR_HMAC_SHA256" ==> DecryptWith(opts, random) == Failure(UnsupportedCipher)
  {
    InitIff(true, WithKey(opts, key), random);
    InitIff(false, opts, random);
  }

  /** After `init`, looking the nonce up gives the nonce in use, wherever it came from. */
  lemma NonceRecorded(encrypt: bool, opts: Options, random: Octets)
    requires Init(encrypt, opts, random).Success?
    ensures var (st, opts') := Init(encrypt, opts, random).value;
            opts'.GetOpt(NONCE) == Some(st.nonce) && opts'.public == opts.public &&
            opts'.private.symmetricKey == st.key
  {
  }

  /** A fresh stream read to its end. */
  lemma StreamToEnd(c: Crypto, st: Stream, body: seq<Poll>)
    requires !st.done && NoEnd(body) && st.consumed == []
    ensures FeedAll(c, st, body + [End]).0 == Feed(c, st.(consumed := DataOf(body)), End).0
    ensures FeedAll(c, st, body + [End]).1 == ApplyKeystream(c, st.key, st.nonce, 0, DataOf(body))
  {
    WholeStream(c, st, body, []);
    assert body + [End] + [] == body + [End] && [] + DataOf(body) == DataOf(body);
  }

  /** The options that encryption leaves start a decryption with the same key and nonce. */
  lemma DecryptStarts(c: Crypto, opts: Options, key: Octets, random: Octets, random': Octets, body: seq<Poll>)
    requires c.Valid() && |random| == AES256_NONCE_SIZE
    requires NoEnd(body) && EncryptWith(AES256CTR, opts, key, random).Success?
    ensures var (start, opts1) := EncryptWith(AES256CTR, opts, key, random).value;
            var encrypted := FeedAll(c, start, body + [End]).0;
            var tag := c.mac(start.key, ApplyKeystream(c, start.key, start.nonce, 0, DataOf(body)));
            && Finalize(encrypted, opts1).Success?
            && DecryptWith(Finalize(encrypted, opts1).value, random').Success?
            && DecryptWith(Finalize(encrypted, opts1).value, random').value.0 ==
               Stream(false, start.key, start.nonce, tag, [], false)
  {
    var (start, opts1) := EncryptWith(AES256CTR, opts, key, random).value;
    StreamToEnd(c, start, body);
    NonceRecorded(true, WithKey(opts, key), random);
  }

  /**
   * Encrypting to the end of the stream, finalizing the options and decrypting with them gives
   * the plaintext and accepts it, however either side's input is cut into chunks, and whatever is
   * read after the end.
   */
  lemma RoundTrip(c: Crypto, opts: Options, key: Octets, random: Octets, random': Octets,
                  body: seq<Poll>, rest: seq<Poll>, body': seq<Poll>, rest': seq<Poll>)
    requires c.Valid() && |random| == AES256_NONCE_SIZE
    requires EncryptWith(AES256CTR, opts, key, random).Success? && NoEnd(body) && NoEnd(body')
    requires DataOf(body') == FeedAll(c, EncryptWith(AES256CTR, opts, key, random).value.0, body + [End] + rest).1
    ensures var (start, opts1) := EncryptWith(AES256CTR, opts, key, random).value;
            var encrypted := FeedAll(c, start, body + [End] + rest).0;
            && Finalize(encrypted, opts1).Success?
            && DecryptWith(Finalize(encrypted, opts1).value, random').Success?
            && var start' := DecryptWith(Finalize(encrypted, opts1).value, random').value.0;
               FeedAll(c, start', body' + [End] + rest').1 == DataOf(body) &&
               Feed(c, FeedAll(c, start', body').0, End).1 == Closed
  {
    var (start, opts1) := EncryptWith(AES256CTR, opts, key, random).value;
    DecryptStarts(c, opts, key, random, random', body);
    RestDoesNotMatter(c, start, body, rest);
    StreamToEnd(c, start, body);
    Decrypts(c, start.key, start.nonce, DataOf(body), body', rest');
  }

  lemma RestDoesNotMatter(c: Crypto, st: Stream, body: seq<Poll>, rest: seq<Poll>)
    requires !st.done && NoEnd(body) && st.consumed == []
    ensures FeedAll(c, st, body + [End] + rest) == FeedAll(c, st, body + [End])
  {
    WholeStream(c, st, body, rest);
    WholeStream(c, st, body, []);
    assert body + [End] + [] == body + [End];
  }

  /** Decrypting what a keystream gave, under its MAC, gives the plaintext and accepts it. */
  lemma Decrypts(c: Crypto, key: Octets, nonce: Octets, plain: Octets, body: seq<Poll>, rest: seq<Poll>)
    requires NoEnd(body) && DataOf(body) == ApplyKeystream(c, key, nonce, 0, plain)
    ensures var start := Stream(false, key, nonce, c.mac(key, DataOf(body)), [], false);
            FeedAll(c, start, body + [End] + rest).1 == plain && Feed(c, FeedAll(c, start, body).0, End).1 == Closed
  {
    var start := Stream(false, key, nonce, c.mac(key, DataOf(body)), [], false);
    WholeStream(c, start, body, rest);
    ChunkIndependent(c, start, body);
    assert [] + DataOf(body) == DataOf(body);
    ApplyTwice(c, key, nonce, 0, plain);
  }

  /** Decryption accepts at its first end of stream exactly when the MAC of what it read is the expected one. */
  lemma AcceptsIff(c: Crypto, st: Stream, body: seq<Poll>)
    requires !st.done && !st.encrypt && st.consumed == [] && NoEnd(body)
    ensures Feed(c, FeedAll(c, st, body).0, End).1 ==
            if c.mac(st.key, DataOf(body)) == st.expected then Closed else Rejected
    ensures Feed(c, FeedAll(c, st, body).0, End).0.done
  {
    ChunkIndependent(c, st, body);
    assert [] + DataOf(body) == DataOf(body);
  }
}
