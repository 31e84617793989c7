/**
  What a hashing context has been given and what it answers, over whole runs of calls.
 */
module Sha1Runs {
  import opened Sha1Standard

  const SHA_SUCCESS: nat := 0
  const SHA_NULL: nat := 1
  const SHA_STATE_ERROR: nat := 3

  /** The number of bytes whose bit count no longer fits the two length words. */
  const LIMIT: nat := 0x2000_0000_0000_0000

  /** The bytes since the last reset, whether the digest was computed, and the error latch. */
  datatype Abstract = Abstract(absorbed: seq<Octet>, computed: bool, corrupted: nat)

  const FRESH := Abstract([], false, SHA_SUCCESS)

  datatype Call = Reset | Input(bytes: seq<Octet>) | Result

  datatype Digest = NoDigest | Digest(octets: seq<Octet>)

  datatype Reply = Reply(code: nat, digest: Digest)

  /** Bytes that are still taken in: none may follow the one that overflows the length. */
  function Taken(absorbed: seq<Octet>, bytes: seq<Octet>): (n: nat)
    ensures n <= |bytes|
  {
    if |absorbed| >= LIMIT then 0
    else if |bytes| <= LIMIT - |absorbed| then |bytes|
    else LIMIT - |absorbed|
  }

  function AfterInput(s: Abstract, bytes: seq<Octet>): Abstract {
    if bytes == [] then s
    else if s.computed then s.(corrupted := SHA_STATE_ERROR)
    else if s.corrupted != 0 then s
    else
      var absorbed := s.absorbed + bytes[..Taken(s.absorbed, bytes)];
      Abstract(absorbed, false, if |absorbed| >= LIMIT then 1 else 0)
  }

  function InputCode(s: Abstract, bytes: seq<Octet>): nat {
    if bytes == [] then SHA_SUCCESS
    else if s.computed then SHA_STATE_ERROR
    else s.corrupted
  }

  function Step(s: Abstract, c: Call): (Abstract, Reply) {
    match c
    case Reset => (FRESH, Reply(SHA_SUCCESS, NoDigest))
    case Input(bytes) => (AfterInput(s, bytes), Reply(InputCode(s, bytes), NoDigest))
    case Result =>
      if s.corrupted != 0 then (s, Reply(s.corrupted, NoDigest))
      else (s.(computed := true), Reply(SHA_SUCCESS, Digest(Sha1(s.absorbed))))
  }

  function Run(s: Abstract, calls: seq<Call>): Abstract {
    if calls == [] then s else Step(Run(s, calls[..|calls| - 1]), calls[|calls| - 1]).0
  }

  /** The pieces of a message as calls. */
  function Inputs(pieces: seq<seq<Octet>>): (r: seq<Call>)
    ensures |r| == |pieces| && forall i :: 0 <= i < |r| ==> r[i] == Input(pieces[i])
  {
    seq(|pieces|, i requires 0 <= i < |pieces| => Input(pieces[i]))
  }

  function Concat(pieces: seq<seq<Octet>>): seq<Octet> {
    if pieces == [] then [] else Concat(pieces[..|pieces| - 1]) + pieces[|pieces| - 1]
  }

  /** However a message is cut, what counts is the message. */
  lemma {:induction false} PiecesAbsorbed(pieces: seq<seq<Octet>>)
    requires |Concat(pieces)| < LIMIT
    ensures Run(FRESH, Inputs(pieces)) == Abstract(Concat(pieces), false, SHA_SUCCESS)
    decreases |pieces|
  {
    if pieces != [] {
      var n := |pieces| - 1;
      PiecesAbsorbed(pieces[..n]);
      assert Inputs(pieces)[..n] == Inputs(pieces[..n]);
      if pieces[n] == [] {
        assert Concat(pieces) == Concat(pieces[..n]);
      } else {
        assert pieces[n][..|pieces[n]|] == pieces[n];
      }
    }
  }

  /** Every way of cutting a message below 2^61 bytes into inputs yields the digest of the message. */
  lemma {:induction false} DigestOfPieces(pieces: seq<seq<Octet>>)
    requires |Concat(pieces)| < LIMIT
    ensures Step(Run(FRESH, Inputs(pieces)), Result).1 == Reply(0, Digest(Sha1(Concat(pieces))))
  {
    hide Sha1, Concat, Run;
    PiecesAbsorbed(pieces);
  }

  /** Neither resets nor takes in bytes. */
  predicate Quiet(c: Call) {
    c == Result || c == Input([])
  }

  /** Once a digest has been given, asking again gives it again. */
  lemma {:induction false} DigestRepeats(s: Abstract, calls: seq<Call>)
    requires s.corrupted == 0 && forall i :: 0 <= i < |calls| ==> Quiet(calls[i])
    ensures Step(Run(Step(s, Result).0, calls), Result).1 == Step(s, Result).1
    ensures var end := Run(Step(s, Result).0, calls); end == Step(s, Result).0
    decreases |calls|
  {
    hide Sha1;
    if calls != [] {
      DigestRepeats(s, calls[..|calls| - 1]);
    }
  }

  /** After an error no call but a reset gives a digest or clears the error. */
  lemma {:induction false} ErrorLatched(s: Abstract, calls: seq<Call>)
    requires s.corrupted != 0 && forall i :: 0 <= i < |calls| ==> calls[i] != Reset
    ensures var end := Run(s, calls);
      end.corrupted != 0 && end.absorbed == s.absorbed
      && Step(end, Result) == (end, Reply(end.corrupted, NoDigest))
    decreases |calls|
  {
    hide Sha1;
    if calls != [] {
      ErrorLatched(s, calls[..|calls| - 1]);
    }
  }

  /** The bytes given before the first request for the digest, and whether any came after it. */
  function Given(calls: seq<Call>): (seq<Octet>, bool, bool)
  {
    if calls == [] then ([], false, false)
    else
      var (bytes, asked, late) := Given(calls[..|calls| - 1]);
      match calls[|calls| - 1]
      case Reset => ([], false, false)
      case Input(more) =>
        if asked then (bytes, asked, late || more != []) else (bytes + more, asked, late)
      case Result => (bytes, asked || |bytes| < LIMIT, late)
  }

  /**
    Over any run from a reset: a request is answered by the digest of the bytes
    given before the first one, unless those are 2^61 or more, or bytes were given
    after it - and in those cases, by an error.
   */
  lemma {:induction false} AnswersOfRun(calls: seq<Call>)
    ensures var s := Run(FRESH, calls); var (bytes, asked, late) := Given(calls);
      && s.computed == asked
      && (asked ==> |bytes| < LIMIT)
      && (|bytes| < LIMIT ==> s.absorbed == bytes)
      && (|bytes| >= LIMIT ==> |s.absorbed| == LIMIT && s.absorbed == bytes[..LIMIT])
      && s.corrupted == (if late then 3 else if |bytes| >= LIMIT then 1 else 0)
      && (late ==> asked)
      && Step(s, Result).1 ==
         if late then Reply(3, NoDigest)
         else if |bytes| >= LIMIT then Reply(1, NoDigest)
         else Reply(0, Digest(Sha1(bytes)))
    decreases |calls|
  {
    hide Sha1;
    if calls != [] {
      AnswersOfRun(calls[..|calls| - 1]);
      var (bytes, asked, late) := Given(calls[..|calls| - 1]);
      match calls[|calls| - 1]
      case Reset =>
      case Result =>
      case Input(more) =>
        MoreBytes(bytes, more);
    }
  }

  lemma {:induction false} MoreBytes(bytes: seq<Octet>, more: seq<Octet>)
    ensures more == [] ==> bytes + more == bytes
    ensures |bytes| < LIMIT ==>
      var absorbed := bytes + more[..Taken(bytes, more)];
      if |bytes + more| < LIMIT then absorbed == bytes + more
      else |absorbed| == LIMIT && absorbed == (bytes + more)[..LIMIT]
    ensures |bytes| >= LIMIT ==> (bytes + more)[..LIMIT] == bytes[..LIMIT]
  {
  }
}
