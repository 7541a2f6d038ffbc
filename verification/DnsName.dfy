/** Domain names on the wire (RFC 1035, sections 3.1 and 4.1.4): question encoder, name parser and skipper. */
module DnsName {
  import opened Wrappers
  import Walks

  newtype byte = b: int | 0 <= b < 256

  const DOT: byte := 46

  // ---------------------------------------------------------------- host names and labels

  /** Labels separated by dots. */
  function Join(labels: seq<seq<byte>>): seq<byte> {
    if labels == [] then [] else if |labels| == 1 then labels[0] else labels[0] + [DOT] + Join(labels[1..])
  }

  /** The first position from `i` on whose byte is (`want`) or is not (`!want`) a dot. */
  function Scan(h: seq<byte>, i: nat, want: bool): (r: nat)
    requires i <= |h|
    ensures i <= r <= |h| && (r < |h| ==> (h[r] == DOT) == want)
    decreases |h| - i
  {
    if i == |h| || (h[i] == DOT) == want then i else Scan(h, i + 1, want)
  }

  /** What repeated `strtok(_, ".")` yields from position `i` on: the maximal dotless pieces; empty ones are skipped. */
  function Tokens(h: seq<byte>, i: nat): seq<seq<byte>>
    requires i <= |h|
    decreases |h| - i
  {
    var a := Scan(h, i, false);
    if a == |h| then []
    else
      var b := Scan(h, a, true);
      [h[a..b]] + if b == |h| then [] else Tokens(h, b + 1)
  }

  /** A length stored into a char keeps its low eight bits. */
  function LengthByte(l: seq<byte>): byte {
    (|l| % 256) as byte
  }

  /** Length-prefixed labels, without the root label. */
  function Encode(labels: seq<seq<byte>>): seq<byte> {
    if labels == [] then [] else [LengthByte(labels[0])] + labels[0] + Encode(labels[1..])
  }

  /** The lengths the parser reads as those of labels: RFC 1035 allows up to 63, bytes from 0xC0 on are pointers. */
  ghost predicate IsLabel(l: seq<byte>) {
    1 <= |l| < 0xC0 && Dotless(l)
  }

  ghost predicate Dotless(l: seq<byte>) {
    forall i :: 0 <= i < |l| ==> l[i] != DOT
  }

  /** A host name of nonempty labels; every host name that RFC 1035 allows is one. */
  ghost predicate IsHost(h: seq<byte>) {
    exists labels :: labels != [] && (forall i :: 0 <= i < |labels| ==> IsLabel(labels[i])) && h == Join(labels)
  }

  lemma {:induction false} JoinLength(labels: seq<seq<byte>>)
    requires labels != []
    ensures |Encode(labels)| == |Join(labels)| + 1
  {
    if |labels| > 1 {
      JoinLength(labels[1..]);
    }
  }

  lemma JoinCons(l: seq<byte>, rest: seq<seq<byte>>)
    ensures Join([l] + rest) == if rest == [] then l else l + [DOT] + Join(rest)
    ensures Encode([l] + rest) == [LengthByte(l)] + l + Encode(rest)
  {
    assert ([l] + rest)[1..] == rest;
  }

  /** Encoding never needs more room than the name; the tokens rebuild the name exactly when it needs all of it. */
  lemma {:induction false} TokensFill(h: seq<byte>, i: nat)
    requires i <= |h|
    ensures |Join(Tokens(h, i))| <= |h| - i
    ensures |Join(Tokens(h, i))| == |h| - i <==> Join(Tokens(h, i)) == h[i..]
    decreases |h| - i
  {
    hide Scan, Join, Encode, Tokens;
    TokensStep(h, i);
    var a := Scan(h, i, false);
    if a == |h| {
      JoinNone();
    } else {
      var b := Scan(h, a, true);
      var l := h[a..b];
      if b == |h| {
        JoinCons(l, []);
        assert [l] + [] == [l];
        assert a == i ==> l == h[i..];
      } else {
        var rest := Tokens(h, b + 1);
        TokensFill(h, b + 1);
        JoinCons(l, rest);
        JoinNone();
        SplitAtDot(h, a, b);
      }
    }
  }

  lemma SplitAtDot(h: seq<byte>, a: nat, b: nat)
    requires a <= b < |h| && h[b] == DOT
    ensures h[a..] == h[a..b] + [DOT] + h[b + 1..]
    ensures forall rest :: h[a..b] + [DOT] + rest == h[a..] ==> rest == h[b + 1..]
  {
    assert h[a..] == h[a..b] + [DOT] + h[b + 1..];
    forall rest | h[a..b] + [DOT] + rest == h[a..] ensures rest == h[b + 1..] {
      assert rest == (h[a..b] + [DOT] + rest)[b - a + 1..];
    }
  }

  /** One call of `strtok`: the next token starts at `a` and ends before `b`. */
  lemma TokensStep(h: seq<byte>, i: nat)
    requires i <= |h|
    ensures var a := Scan(h, i, false);
            if a == |h| then Tokens(h, i) == []
            else
              var b := Scan(h, a, true);
              a < b <= |h| && (b < |h| ==> h[b] == DOT)
              && Tokens(h, i) == [h[a..b]] + if b == |h| then [] else Tokens(h, b + 1)
  {
  }

  lemma JoinNone()
    ensures Join([]) == [] && Encode([]) == []
  {
  }

  /** From `i` on there is no empty label: no dot at either end, and no two dots in a row. */
  ghost predicate WellDotted(h: seq<byte>, i: nat) {
    i < |h| && h[i] != DOT && h[|h| - 1] != DOT && forall k :: i < k < |h| ==> h[k - 1] != DOT || h[k] != DOT
  }

  /** The bytes from `a` to `b` have no dot among them. */
  lemma {:induction false} ScanDotless(h: seq<byte>, a: nat, k: nat)
    requires a <= |h| && a <= k < Scan(h, a, true)
    ensures h[k] != DOT
    decreases |h| - a
  {
    if a < k {
      ScanDotless(h, a + 1, k);
    }
  }

  lemma WellDottedStep(h: seq<byte>, i: nat, b: nat)
    requires i < b <= |h| && h[i] != DOT && (b < |h| ==> h[b] == DOT)
    requires forall k :: i <= k < b ==> h[k] != DOT
    ensures WellDotted(h, i) <==> b == |h| || WellDotted(h, b + 1)
  {
    if b < |h| && WellDotted(h, i) {
      assert h[b + 1 - 1] == DOT;
    }
  }

  /** The encoding has the full length exactly when there is no empty label. */
  lemma {:induction false} TokensFull(h: seq<byte>, i: nat)
    requires i <= |h|
    ensures |Encode(Tokens(h, i))| <= |h| - i + 1
    ensures |Encode(Tokens(h, i))| == |h| - i + 1 <==> WellDotted(h, i)
    decreases |h| - i
  {
    hide Encode, Tokens, WellDotted;
    TokensStep(h, i);
    var a := Scan(h, i, false);
    JoinNone();
    NotWellDotted(h, i);
    if a < |h| {
      var b := Scan(h, a, true);
      JoinCons(h[a..b], if b == |h| then [] else Tokens(h, b + 1));
      if b < |h| {
        TokensFull(h, b + 1);
      }
      if a == i {
        forall k | i <= k < b ensures h[k] != DOT {
          ScanDotless(h, a, k);
        }
        WellDottedStep(h, i, b);
      }
    }
  }

  lemma NotWellDotted(h: seq<byte>, i: nat)
    requires i <= |h|
    ensures Scan(h, i, false) != i || i == |h| ==> !WellDotted(h, i)
  {
  }

  lemma {:induction false} ScanLabel(l: seq<byte>, tail: seq<byte>, h: seq<byte>, i: nat, k: nat)
    requires Dotless(l) && l != [] && i + |l| <= |h| && h[i..] == l + tail && k <= |l|
    requires tail == [] || tail[0] == DOT
    ensures Scan(h, i + k, true) == i + |l|
    ensures k == 0 ==> Scan(h, i, false) == i
    decreases |l| - k
  {
    assert h[i..][0] == l[0];
    if k < |l| {
      assert h[i..][k] == l[k];
      ScanLabel(l, tail, h, i, k + 1);
    } else if tail != [] {
      assert h[i..][|l|] == tail[0];
    }
  }

  /** Where the first label ends, and the others begin. */
  lemma FirstLabel(labels: seq<seq<byte>>, h: seq<byte>, i: nat)
    requires labels != [] && labels[0] != [] && Dotless(labels[0]) && i <= |h| && h[i..] == Join(labels)
    ensures var l, rest := labels[0], labels[1..];
            && labels == [l] + rest && i < i + |l| <= |h| && h[i..i + |l|] == l
            && Scan(h, i, false) == i && Scan(h, i, true) == i + |l|
            && if rest == [] then i + |l| == |h| else i + |l| < |h| && h[i + |l| + 1..] == Join(rest)
  {
    hide Scan, Join, Encode, Tokens;
    var l, rest := labels[0], labels[1..];
    assert labels == [l] + rest;
    JoinCons(l, rest);
    var tail := if rest == [] then [] else [DOT] + Join(rest);
    ScanLabel(l, tail, h, i, 0);
    SplitHead(h, i, l, tail);
    if rest != [] {
      assert tail[1..] == Join(rest);
    }
  }

  /** A list without its empty members. */
  ghost function NonEmpty(pieces: seq<seq<byte>>): seq<seq<byte>> {
    if pieces == [] then []
    else (if pieces[0] == [] then [] else [pieces[0]]) + NonEmpty(pieces[1..])
  }

  /** A dot where a token could start is stepped over. */
  lemma TokensSkipDot(h: seq<byte>, i: nat)
    requires i < |h| && h[i] == DOT
    ensures Tokens(h, i) == Tokens(h, i + 1)
  {
    hide Tokens;
    TokensStep(h, i);
    TokensStep(h, i + 1);
    assert Scan(h, i, false) == Scan(h, i + 1, false);
  }

  /**
   * What `strtok` makes of any string: its pieces between dots, in order, without the empty ones. Every string is the
   * join of such pieces.
   */
  lemma {:induction false} TokensOfPieces(pieces: seq<seq<byte>>, h: seq<byte>, i: nat)
    requires pieces != [] && forall k :: 0 <= k < |pieces| ==> Dotless(pieces[k])
    requires i <= |h| && h[i..] == Join(pieces)
    ensures Tokens(h, i) == NonEmpty(pieces)
    decreases |pieces|
  {
    hide Scan, Join, Encode, Tokens, Dotless;
    var l, rest := pieces[0], pieces[1..];
    TokensStep(h, i);
    if l != [] {
      FirstLabel(pieces, h, i);
      if rest != [] {
        TokensOfPieces(rest, h, i + |l| + 1);
      }
    } else {
      EmptyPiece(pieces, h, i);
      if rest == [] {
        NothingLeft(h, i);
      } else {
        TokensSkipDot(h, i);
        TokensOfPieces(rest, h, i + 1);
      }
    }
  }

  lemma EmptyPiece(pieces: seq<seq<byte>>, h: seq<byte>, i: nat)
    requires pieces != [] && pieces[0] == [] && i <= |h| && h[i..] == Join(pieces)
    ensures var rest := pieces[1..];
            if rest == [] then i == |h| else i < |h| && h[i] == DOT && h[i + 1..] == Join(rest)
  {
    hide Join;
    var rest := pieces[1..];
    assert pieces == [[]] + rest;
    JoinCons([], rest);
    if rest != [] {
      assert h[i] == h[i..][0];
      assert h[i + 1..] == h[i..][1..];
    }
  }

  lemma NothingLeft(h: seq<byte>, i: nat)
    requires i == |h|
    ensures Tokens(h, i) == []
  {
  }

  lemma {:induction false} PiecesOf(h: seq<byte>) returns (pieces: seq<seq<byte>>)
    ensures pieces != [] && (forall k :: 0 <= k < |pieces| ==> Dotless(pieces[k])) && Join(pieces) == h
    decreases |h|
  {
    hide Join, Scan;
    var b := Scan(h, 0, true);
    forall k | 0 <= k < b ensures h[k] != DOT {
      ScanDotless(h, 0, k);
    }
    if b == |h| {
      pieces := [h];
      JoinCons(h, []);
      assert [h] + [] == [h];
    } else {
      var rest := PiecesOf(h[b + 1..]);
      pieces := [h[..b]] + rest;
      JoinCons(h[..b], rest);
      assert h == h[..b] + [DOT] + h[b + 1..];
    }
  }

  lemma {:induction false} LabelsAreNonEmpty(labels: seq<seq<byte>>)
    requires forall k :: 0 <= k < |labels| ==> IsLabel(labels[k])
    ensures NonEmpty(labels) == labels
  {
    if labels != [] {
      assert IsLabel(labels[0]);
      LabelsAreNonEmpty(labels[1..]);
    }
  }

  /** `strtok` recovers the labels of a host name. */
  lemma TokensOfJoin(labels: seq<seq<byte>>, h: seq<byte>)
    requires labels != [] && (forall k :: 0 <= k < |labels| ==> IsLabel(labels[k])) && h == Join(labels)
    ensures Tokens(h, 0) == labels
  {
    hide Join, Tokens;
    assert h[0..] == h;
    forall k | 0 <= k < |labels| ensures Dotless(labels[k]) {
      assert IsLabel(labels[k]);
    }
    TokensOfPieces(labels, h, 0);
    LabelsAreNonEmpty(labels);
  }

  /** The length byte of a label that is too long for it. */
  lemma LengthWraps(l: seq<byte>)
    ensures (|l| - Encode([l])[0] as int) % 256 == 0
  {
    assert [l] + [] == [l];
    JoinCons(l, []);
  }

  lemma SplitHead(h: seq<byte>, i: nat, l: seq<byte>, tail: seq<byte>)
    requires i <= |h| && h[i..] == l + tail
    ensures |h| == i + |l| + |tail| && h[i..i + |l|] == l
    ensures tail != [] ==> h[i + |l| + 1..] == tail[1..]
  {
    assert h[i..i + |l|] == h[i..][..|l|];
    if tail != [] {
      assert h[i + |l| + 1..] == h[i..][|l| + 1..];
    }
  }

  // ---------------------------------------------------------------- the encoder

  /** `text` written over `buffer` from `at` on. */
  ghost function Overwrite(buffer: seq<byte>, at: nat, text: seq<byte>): seq<byte>
    requires at + |text| <= |buffer|
  {
    buffer[..at] + text + buffer[at + |text|..]
  }

  lemma OverwriteNothing(buffer: seq<byte>, at: nat)
    requires at <= |buffer|
    ensures Overwrite(buffer, at, []) == buffer
  {
  }

  lemma OverwriteShows(buffer: seq<byte>, at: nat, text: seq<byte>)
    requires at + |text| <= |buffer|
    ensures |Overwrite(buffer, at, text)| == |buffer| && Overwrite(buffer, at, text)[at..at + |text|] == text
    ensures |text| == |buffer| ==> Overwrite(buffer, at, text) == text
  {
  }

  /** Writing from within or right behind a text keeps its beginning. */
  lemma OverwriteTwice(buffer: seq<byte>, at: nat, text: seq<byte>, n: nat, more: seq<byte>)
    requires n <= |text| <= n + |more| && at + n + |more| <= |buffer|
    ensures Overwrite(Overwrite(buffer, at, text), at + n, more) == Overwrite(buffer, at, text[..n] + more)
  {
  }

  /** `memcpy`. */
  method CopyAt(dst: array<byte>, at: nat, src: seq<byte>)
    requires at + |src| <= dst.Length
    modifies dst
    ensures dst[..] == Overwrite(old(dst[..]), at, src)
  {
    forall k | 0 <= k < |src| {
      dst[at + k] := src[k];
    }
  }

  /** A buffer with whatever bytes the allocator leaves in it. */
  method Malloc(garbage: seq<byte>) returns (buffer: array<byte>)
    ensures fresh(buffer) && buffer[..] == garbage
  {
    buffer := new byte[|garbage|](i requires 0 <= i < |garbage| => garbage[i]);
  }

  /** What the encoder writes for a list of tokens: with the terminating zero of the last one, or nothing. */
  ghost function Wire(labels: seq<seq<byte>>): seq<byte> {
    if labels == [] then [] else Encode(labels) + [0]
  }

  lemma {:induction false} EncodeAppend(labels: seq<seq<byte>>, l: seq<byte>)
    ensures Encode(labels + [l]) == Encode(labels) + [LengthByte(l)] + l
  {
    hide Encode;
    JoinNone();
    if labels == [] {
      JoinCons(l, []);
      assert [] + [l] == [l] + [];
    } else {
      var rest := labels[1..];
      EncodeAppend(rest, l);
      assert labels + [l] == [labels[0]] + (rest + [l]) && labels == [labels[0]] + rest;
      JoinCons(labels[0], rest + [l]);
      JoinCons(labels[0], rest);
    }
  }

  /**
   * The name field of the question for `hostname`: a buffer of its length plus 2, with whatever `garbage` the
   * allocator leaves in it.
   */
  method CreateQuestion(hostname: seq<byte>, garbage: seq<byte>) returns (qname: array<byte>)
    requires |garbage| == |hostname| + 2
    // The buffer is written only within its bounds, for any host name at all; what is not written stays garbage.
    ensures |Wire(Tokens(hostname, 0))| <= |garbage|
    ensures qname[..] == Overwrite(garbage, 0, Wire(Tokens(hostname, 0)))
    ensures Tokens(hostname, 0) == [] ==> qname[..] == garbage
    ensures var wire := Encode(Tokens(hostname, 0)); Tokens(hostname, 0) != [] ==> qname[..|wire| + 1] == wire + [0]
  {
    hide Scan, Encode, Tokens, Overwrite, Wire, Written, Remain;
    qname := Malloc(garbage);
    ghost var labels, done := Tokens(hostname, 0), [];
    NothingWritten(garbage, labels);
    var next, qnameP := 0, 0;
    var more := true;
    while more
      invariant 0 <= next <= |hostname| && 0 <= qnameP <= if more then next else |hostname| + 1
      invariant Remain(labels, done, if more then Tokens(hostname, next) else [])
      invariant Written(qname[..], garbage, done, qnameP)
      decreases more, |hostname| - next
    {
      TokensStep(hostname, next);
      var a := Scan(hostname, next, false);
      if a == |hostname| {
        more := false;
      } else {
        var b := Scan(hostname, a, true);
        var token := hostname[a..b];
        qnameP := PutLabel(qname, qnameP, token, garbage, done);
        NextToken(labels, done, token, if b == |hostname| then [] else Tokens(hostname, b + 1));
        done := done + [token];
        if b == |hostname| {
          more := false;
        } else {
          next := b + 1;
        }
      }
    }
    WrittenWire(qname[..], garbage, labels, done, qnameP);
    WireShows(garbage, labels);
    assert forall n: nat :: n <= qname.Length ==> qname[..n] == qname[..][..n];
  }

  lemma WireShows(garbage: seq<byte>, labels: seq<seq<byte>>)
    requires |Wire(labels)| <= |garbage|
    ensures var wire, written := Encode(labels), Overwrite(garbage, 0, Wire(labels));
            if labels == [] then written == garbage
            else |wire| + 1 <= |garbage| == |written| && written[..|wire| + 1] == wire + [0]
  {
    OverwriteNothing(garbage, 0);
    OverwriteShows(garbage, 0, Wire(labels));
  }

  /** The tokens still to come. */
  ghost predicate Remain(labels: seq<seq<byte>>, done: seq<seq<byte>>, rest: seq<seq<byte>>) {
    labels == done + rest
  }

  lemma NextToken(labels: seq<seq<byte>>, done: seq<seq<byte>>, token: seq<byte>, rest: seq<seq<byte>>)
    requires Remain(labels, done, [token] + rest)
    ensures Remain(labels, done + [token], rest)
  {
  }

  /** The tokens in `done` are encoded, the next one goes to position `n`. */
  ghost predicate Written(q: seq<byte>, garbage: seq<byte>, done: seq<seq<byte>>, n: nat) {
    |Wire(done)| <= |garbage| && q == Overwrite(garbage, 0, Wire(done)) && n == |Encode(done)|
  }

  lemma NothingWritten(garbage: seq<byte>, labels: seq<seq<byte>>)
    ensures Written(garbage, garbage, [], 0) && Remain(labels, [], labels)
  {
    OverwriteNothing(garbage, 0);
  }

  lemma WrittenWire(q: seq<byte>, garbage: seq<byte>, labels: seq<seq<byte>>, done: seq<seq<byte>>, n: nat)
    requires Written(q, garbage, done, n) && Remain(labels, done, [])
    ensures |Wire(labels)| <= |garbage| && q == Overwrite(garbage, 0, Wire(labels))
  {
    assert labels == done;
  }

  /** The body of the encoder's loop: a length byte, then the token with its terminating zero. */
  method PutLabel(qname: array<byte>, at: nat, token: seq<byte>, ghost garbage: seq<byte>, ghost done: seq<seq<byte>>)
    returns (end: nat)
    requires at + |token| + 1 < qname.Length && Written(qname[..], garbage, done, at)
    modifies qname
    ensures end == at + 1 + |token|
    ensures Written(qname[..], garbage, done + [token], end)
  {
    hide Encode, Overwrite, Wire;
    ghost var before := qname[..];
    WriteAtMost(before, garbage, done, at);
    qname[at] := LengthByte(token);
    CopyAt(qname, at + 1, token + [0]);
    end := at + 1 + |token|;
    ThenTheToken(before, at, token);
    WriteOneMore(before, garbage, done, at, token);
  }

  lemma WriteAtMost(q: seq<byte>, garbage: seq<byte>, done: seq<seq<byte>>, n: nat)
    requires Written(q, garbage, done, n)
    ensures |q| == |garbage|
  {
  }

  lemma ThenTheToken(q: seq<byte>, at: nat, token: seq<byte>)
    requires at + |token| + 1 < |q|
    ensures Overwrite(q[at := LengthByte(token)], at + 1, token + [0])
            == Overwrite(q, at, [LengthByte(token)] + token + [0])
  {
  }

  lemma WriteOneMore(q: seq<byte>, garbage: seq<byte>, done: seq<seq<byte>>, n: nat, token: seq<byte>)
    requires Written(q, garbage, done, n) && n + |token| + 1 < |q|
    ensures Written(Overwrite(q, n, [LengthByte(token)] + token + [0]), garbage, done + [token], n + 1 + |token|)
  {
    hide Encode, Overwrite, Wire;
    WriteAtMost(q, garbage, done, n);
    WireMore(done, token);
    OverwriteTwice(garbage, 0, Wire(done), n, [LengthByte(token)] + token + [0]);
  }

  lemma WireMore(done: seq<seq<byte>>, token: seq<byte>)
    ensures |Encode(done)| <= |Wire(done)| <= |Encode(done)| + 1 && Wire(done)[..|Encode(done)|] == Encode(done)
    ensures Wire(done + [token]) == Encode(done) + ([LengthByte(token)] + token + [0])
    ensures |Encode(done + [token])| == |Encode(done)| + 1 + |token|
  {
    hide Encode;
    JoinNone();
    EncodeAppend(done, token);
    AppendThree(Encode(done), LengthByte(token), token, [0]);
  }

  lemma AppendThree(done: seq<byte>, n: byte, token: seq<byte>, rest: seq<byte>)
    ensures done + ([n] + token + rest) == done + [n] + token + rest
  {
  }

  // ---------------------------------------------------------------- names in a message

  predicate IsPointer(flag: byte) {
    flag >= 0xC0
  }

  /**
   * The labels of the name at `p`, as the source reads them: a byte below 0xC0 is the length of a label, and a pointer
   * counts by its second byte alone. There is no such name if it takes more than `jumps` pointers to its end, or leaves
   * the message.
   */
  function NameAt(chunk: seq<byte>, jumps: nat, p: nat): (r: Option<seq<seq<byte>>>)
    ensures r.Some? ==> p < |chunk|
    decreases jumps, |chunk| - p
  {
    if p >= |chunk| then None
    else
      var flag := chunk[p];
      if flag == 0 then Some([])
      else if IsPointer(flag) then
        if p + 1 < |chunk| && jumps > 0 then NameAt(chunk, jumps - 1, chunk[p + 1] as nat) else None
      else if p + 1 + flag as nat <= |chunk| then
        var rest := NameAt(chunk, jumps, p + 1 + flag as nat);
        if rest.None? then None else Some([chunk[p + 1..p + 1 + flag as nat]] + rest.value)
      else None
  }

  /** Where the pointers of a name lead, in order. */
  ghost function Targets(chunk: seq<byte>, jumps: nat, p: nat): (ts: seq<int>)
    requires NameAt(chunk, jumps, p).Some?
    ensures |ts| <= jumps && forall i :: 0 <= i < |ts| ==> 0 <= ts[i] < 256
    decreases jumps, |chunk| - p
  {
    var flag := chunk[p];
    if flag == 0 then []
    else if IsPointer(flag) then [chunk[p + 1] as int] + Targets(chunk, jumps - 1, chunk[p + 1] as nat)
    else Targets(chunk, jumps, p + 1 + flag as nat)
  }

  /** A name takes as many jumps as it has pointers; more are no use to it. */
  lemma {:induction false} EnoughJumps(chunk: seq<byte>, jumps: nat, p: nat, k: nat)
    requires NameAt(chunk, jumps, p).Some? && |Targets(chunk, jumps, p)| <= k
    ensures NameAt(chunk, k, p) == NameAt(chunk, jumps, p) && Targets(chunk, k, p) == Targets(chunk, jumps, p)
    decreases jumps, |chunk| - p
  {
    var flag := chunk[p];
    if flag == 0 {
    } else if IsPointer(flag) {
      EnoughJumps(chunk, jumps - 1, chunk[p + 1] as nat, k - 1);
    } else {
      EnoughJumps(chunk, jumps, p + 1 + flag as nat, k);
    }
  }

  /** Behind a pointer the name goes on at its target. */
  lemma {:induction false} BehindTarget(chunk: seq<byte>, jumps: nat, p: nat, i: nat)
    requires NameAt(chunk, jumps, p).Some? && i < |Targets(chunk, jumps, p)|
    ensures var ts := Targets(chunk, jumps, p);
            NameAt(chunk, jumps - 1 - i, ts[i]).Some? && Targets(chunk, jumps - 1 - i, ts[i]) == ts[i + 1..]
    decreases jumps, |chunk| - p
  {
    var flag, ts := chunk[p], Targets(chunk, jumps, p);
    if IsPointer(flag) {
      var rest := Targets(chunk, jumps - 1, chunk[p + 1] as nat);
      assert ts[1..] == rest;
      if i > 0 {
        BehindTarget(chunk, jumps - 1, chunk[p + 1] as nat, i - 1);
        assert rest[i..] == ts[i + 1..];
      }
    } else {
      BehindTarget(chunk, jumps, p + 1 + flag as nat, i);
    }
  }

  /** A name that ends is never led to the same place twice. */
  lemma TargetsDistinct(chunk: seq<byte>, jumps: nat, p: nat)
    requires NameAt(chunk, jumps, p).Some?
    ensures Walks.Distinct(Targets(chunk, jumps, p))
  {
    hide NameAt, Targets;
    var ts := Targets(chunk, jumps, p);
    forall i, j | 0 <= i < j < |ts| ensures ts[i] != ts[j] {
      BehindTarget(chunk, jumps, p, i);
      BehindTarget(chunk, jumps, p, j);
      if ts[i] == ts[j] {
        EnoughJumps(chunk, jumps - 1 - i, ts[i], |ts|);
        EnoughJumps(chunk, jumps - 1 - j, ts[j], |ts|);
      }
    }
  }

  /** As many pointers as there are offsets for them to lead to: a name that is not at its end by then never ends. */
  const JUMPS: nat := 256

  /** Whether a name ends, whatever number of pointers it takes, shows within JUMPS of them. */
  lemma EndsWithinJumps(chunk: seq<byte>, jumps: nat, p: nat)
    ensures NameAt(chunk, jumps, p).Some? ==> NameAt(chunk, 256, p) == NameAt(chunk, jumps, p)
    ensures jumps >= 256 ==> NameAt(chunk, jumps, p) == NameAt(chunk, 256, p)
  {
    hide NameAt, Targets;
    if NameAt(chunk, jumps, p).Some? {
      TargetsDistinct(chunk, jumps, p);
      Walks.DistinctBound(Targets(chunk, jumps, p), JUMPS);
      EnoughJumps(chunk, jumps, p, JUMPS);
    } else if jumps >= JUMPS && NameAt(chunk, JUMPS, p).Some? {
      EnoughJumps(chunk, JUMPS, p, jumps);
    }
  }

  /** A pointer to itself. */
  lemma LoopNeverEnds(jumps: nat)
    ensures NameAt([0xC0, 0], jumps, 0) == None
  {
    if jumps > 0 {
      LoopNeverEnds(jumps - 1);
    }
  }

  /** The offset of a pointer by section 4.1.4 of RFC 1035: the low six bits of its first byte count too. */
  function Offset(high: byte, low: byte): nat
    requires IsPointer(high)
  {
    (high as nat - 0xC0) * 256 + low as nat
  }

  /** The labels of the name at `p` by RFC 1035: labels of up to 63 bytes, pointers of 14 bits to an earlier name. */
  function RfcNameAt(chunk: seq<byte>, start: nat, p: nat): (r: Option<seq<seq<byte>>>)
    requires start <= p
    ensures r.Some? ==> p < |chunk|
    decreases start, |chunk| - p
  {
    if p >= |chunk| then None
    else
      var flag := chunk[p];
      if flag == 0 then Some([])
      else if IsPointer(flag) then
        if p + 1 < |chunk| && Offset(flag, chunk[p + 1]) < start then
          var n := Offset(flag, chunk[p + 1]);
          RfcNameAt(chunk, n, n)
        else None
      else if flag <= 63 && p + 1 + flag as nat <= |chunk| then
        var rest := RfcNameAt(chunk, start, p + 1 + flag as nat);
        if rest.None? then None else Some([chunk[p + 1..p + 1 + flag as nat]] + rest.value)
      else None
  }

  /** A name of RFC 1035 has the same labels for the source behind its first pointer, if it has one. */
  ghost predicate SameBehindPointer(chunk: seq<byte>, start: nat, p: nat)
    requires start <= p && RfcNameAt(chunk, start, p).Some?
    decreases |chunk| - p
  {
    var flag := chunk[p];
    if flag == 0 then true
    else if IsPointer(flag) then
      var n := Offset(flag, chunk[p + 1]);
      NameAt(chunk, JUMPS, chunk[p + 1] as nat) == RfcNameAt(chunk, n, n)
    else SameBehindPointer(chunk, start, p + 1 + flag as nat)
  }

  /** One jump more or less makes no difference. */
  lemma PointerIsFollowed(chunk: seq<byte>, p: nat)
    requires p + 1 < |chunk| && IsPointer(chunk[p])
    ensures NameAt(chunk, JUMPS, p) == NameAt(chunk, JUMPS, chunk[p + 1] as nat)
  {
    EndsWithinJumps(chunk, JUMPS + 1, p);
  }

  /**
   * Exactly when the source reads what the RFC means: the ignored bits of the first pointer lead it to the same labels
   * all the same.
   */
  lemma {:induction false} RfcNameIsReadExactly(chunk: seq<byte>, start: nat, p: nat)
    requires start <= p && RfcNameAt(chunk, start, p).Some?
    ensures NameAt(chunk, JUMPS, p) == RfcNameAt(chunk, start, p) <==> SameBehindPointer(chunk, start, p)
    decreases |chunk| - p
  {
    var flag := chunk[p];
    if flag == 0 {
    } else if IsPointer(flag) {
      PointerIsFollowed(chunk, p);
    } else {
      var next := p + 1 + flag as nat;
      RfcNameIsReadExactly(chunk, start, next);
      var l, mine, rfc := chunk[p + 1..next], NameAt(chunk, JUMPS, next), RfcNameAt(chunk, start, next).value;
      if mine.Some? {
        assert ([l] + mine.value)[1..] == mine.value && ([l] + rfc)[1..] == rfc;
      }
    }
  }

  /** The first pointer of the name at `p`, if it has one, has an offset below 256. */
  ghost predicate LowPointer(chunk: seq<byte>, p: nat)
    decreases |chunk| - p
  {
    p < |chunk| && chunk[p] != 0 ==>
      if IsPointer(chunk[p]) then chunk[p] == 0xC0 else LowPointer(chunk, p + 1 + chunk[p] as nat)
  }

  /**
   * They are the same if the first pointer is low: those it leads to are lower still. Up to offset 256 every pointer
   * is.
   */
  lemma {:induction false} LowPointerIsSame(chunk: seq<byte>, start: nat, p: nat)
    requires start <= p && RfcNameAt(chunk, start, p).Some? && (LowPointer(chunk, p) || start <= 256)
    ensures SameBehindPointer(chunk, start, p)
    decreases start, |chunk| - p
  {
    var flag := chunk[p];
    if IsPointer(flag) {
      var n := chunk[p + 1] as nat;
      assert Offset(flag, chunk[p + 1]) == n;
      LowPointerIsSame(chunk, n, n);
      RfcNameIsReadExactly(chunk, n, n);
    } else if flag != 0 {
      LowPointerIsSame(chunk, start, p + 1 + flag as nat);
    }
  }

  /** The two bytes of a pointer to offset `n`. */
  function PointerTo(n: nat): seq<byte>
    requires n < 0x4000
  {
    [(0xC0 + n / 256) as byte, (n % 256) as byte]
  }

  /** In every message, a pointer to `n` is read as RFC 1035 means it. */
  ghost predicate OffsetSafe(n: nat)
    requires n < 0x4000
  {
    forall chunk: seq<byte>, p: nat ::
      p + 2 <= |chunk| && chunk[p..p + 2] == PointerTo(n) && RfcNameAt(chunk, p, p).Some? ==>
        NameAt(chunk, JUMPS, p) == RfcNameAt(chunk, p, p)
  }

  /** The offsets that are read right in every message are those that fit one byte. */
  lemma OffsetSafeExactly(n: nat)
    requires n < 0x4000
    ensures OffsetSafe(n) <==> n < 256
  {
    if n < 256 {
      forall chunk: seq<byte>, p: nat |
        p + 2 <= |chunk| && chunk[p..p + 2] == PointerTo(n) && RfcNameAt(chunk, p, p).Some?
        ensures NameAt(chunk, JUMPS, p) == RfcNameAt(chunk, p, p)
      {
        assert chunk[p] == chunk[p..p + 2][0] == 0xC0;
        assert LowPointer(chunk, p);
        LowPointerIsSame(chunk, p, p);
        RfcNameIsReadExactly(chunk, p, p);
      }
    } else {
      var chunk := Misread(n);
      HighPointerIsMisread(n);
      assert chunk[n + 3..n + 5] == PointerTo(n);
    }
  }

  /** A name "a" at offset `n`, a pointer to it at `n + 3`, and the root name at every offset before. */
  function Misread(n: nat): seq<byte>
    requires n < 0x4000
  {
    seq(n, _ => 0 as byte) + ([1, 97, 0] + PointerTo(n))
  }

  /** Any pointer to an offset of 256 or more can be followed to another name. */
  lemma HighPointerIsMisread(n: nat)
    requires 256 <= n < 0x4000
    ensures RfcNameAt(Misread(n), n + 3, n + 3) == Some([[97]]) && NameAt(Misread(n), JUMPS, n + 3) == Some([])
  {
    var chunk := Misread(n);
    var tail: seq<byte> := [1, 97, 0] + PointerTo(n);
    assert chunk[n] == tail[0] == 1 && chunk[n + 2] == tail[2] == 0;
    assert chunk[n + 3] == tail[3] && chunk[n + 4] == tail[4];
    assert chunk[n + 1..n + 2] == tail[1..2] == [97];
    assert Offset(chunk[n + 3], chunk[n + 4]) == n;
    assert RfcNameAt(chunk, n, n + 2) == Some([]);
    assert RfcNameAt(chunk, n, n) == Some([chunk[n + 1..n + 2]] + []);
    assert [chunk[n + 1..n + 2]] + [] == [[97]];
    PointerIsFollowed(chunk, n + 3);
    assert chunk[n % 256] == 0;
  }

  /** One label and, unless the name ends, its dot. */
  ghost function Piece(chunk: seq<byte>, p: nat): seq<byte>
    requires p < |chunk| && p + 1 + chunk[p] as nat < |chunk|
  {
    var next := p + 1 + chunk[p] as nat;
    chunk[p + 1..next] + if chunk[next] != 0 then [DOT] else []
  }

  /** What the parser writes for that name. */
  ghost function Text(chunk: seq<byte>, jumps: nat, p: nat): seq<byte>
    requires NameAt(chunk, jumps, p).Some?
    decreases jumps, |chunk| - p
  {
    var flag := chunk[p];
    if flag == 0 then []
    else if IsPointer(flag) then Text(chunk, jumps - 1, chunk[p + 1] as nat)
    else
      Piece(chunk, p) + Text(chunk, jumps, p + 1 + flag as nat)
  }

  /** A label of the name is followed by a pointer to the root name. */
  ghost predicate DanglingDot(chunk: seq<byte>, jumps: nat, p: nat)
    requires NameAt(chunk, jumps, p).Some?
    decreases jumps, |chunk| - p
  {
    var flag := chunk[p];
    if flag == 0 then false
    else if IsPointer(flag) then DanglingDot(chunk, jumps - 1, chunk[p + 1] as nat)
    else
      var next := p + 1 + flag as nat;
      (chunk[next] != 0 && NameAt(chunk, jumps, next).value == []) || DanglingDot(chunk, jumps, next)
  }

  /** How the name goes on from `p`: it ends, jumps, or has a label. */
  lemma NameStep(chunk: seq<byte>, jumps: nat, p: nat)
    requires NameAt(chunk, jumps, p).Some?
    ensures var flag := chunk[p];
            if flag == 0 then NameAt(chunk, jumps, p).value == [] && Text(chunk, jumps, p) == []
            else if IsPointer(flag) then
              && p + 1 < |chunk| && jumps > 0
              && NameAt(chunk, jumps - 1, chunk[p + 1] as nat) == NameAt(chunk, jumps, p)
              && Text(chunk, jumps, p) == Text(chunk, jumps - 1, chunk[p + 1] as nat)
            else
              && var next := p + 1 + flag as nat;
              && next < |chunk| && NameAt(chunk, jumps, next).Some?
              && NameAt(chunk, jumps, p).value == [chunk[p + 1..next]] + NameAt(chunk, jumps, next).value
              && Text(chunk, jumps, p) == Piece(chunk, p) + Text(chunk, jumps, next)
  {
  }

  /** The parser writes the dotted expansion of the name, with a dot too many exactly when it dangles. */
  lemma {:induction false} TextIsExpansion(chunk: seq<byte>, jumps: nat, p: nat)
    requires NameAt(chunk, jumps, p).Some?
    ensures var labels := NameAt(chunk, jumps, p).value;
            Text(chunk, jumps, p) == Join(labels) + if DanglingDot(chunk, jumps, p) then [DOT] else []
    ensures DanglingDot(chunk, jumps, p) ==> NameAt(chunk, jumps, p).value != []
    decreases jumps, |chunk| - p
  {
    hide Join, NameAt, Text;
    JoinNone();
    NameStep(chunk, jumps, p);
    var flag := chunk[p];
    if flag == 0 {
    } else if IsPointer(flag) {
      TextIsExpansion(chunk, jumps - 1, chunk[p + 1] as nat);
    } else {
      var next := p + 1 + flag as nat;
      TextIsExpansion(chunk, jumps, next);
      NameStep(chunk, jumps, next);
      var l, rest := chunk[p + 1..next], NameAt(chunk, jumps, next).value;
      JoinCons(l, rest);
      var tail := if DanglingDot(chunk, jumps, next) then [DOT] else [];
      assert l + [DOT] + (Join(rest) + tail) == l + [DOT] + Join(rest) + tail;
    }
  }

  lemma ExpandsExactlyUnlessDangling(chunk: seq<byte>, jumps: nat, p: nat)
    requires NameAt(chunk, jumps, p).Some?
    ensures Text(chunk, jumps, p) == Join(NameAt(chunk, jumps, p).value) <==> !DanglingDot(chunk, jumps, p)
  {
    TextIsExpansion(chunk, jumps, p);
  }

  /** A label followed by a pointer to the root name: "a" is read as "a.". */
  lemma DanglingName()
    ensures var m: seq<byte> := [0, 1, 97, 0xC0, 0];
            NameAt(m, 1, 1) == Some([[97]]) && DanglingDot(m, 1, 1) && Text(m, 1, 1) == [97, 46]
  {
    var m: seq<byte> := [0, 1, 97, 0xC0, 0];
    assert m[2..3] == [97];
    assert NameAt(m, 0, 0) == Some([]) && NameAt(m, 1, 3) == Some([]);
    assert NameAt(m, 1, 1) == Some([m[2..3]] + []);
    assert [m[2..3]] + [] == [[97]];
    assert Text(m, 0, 0) == [] && Text(m, 1, 3) == [];
  }

  /**
   * `*len` is returned as `newLen`. For every name that ends, however its pointers lead there: every read stays inside
   * the message, every write inside the room needed.
   */
  method DnsParseName(chunk: seq<byte>, ptr: nat, out: array<byte>, len: nat, ghost jumps: nat) returns (newLen: nat)
    requires NameAt(chunk, jumps, ptr).Some? && len + |Text(chunk, jumps, ptr)| <= out.Length
    modifies out
    ensures newLen == len + |Text(chunk, jumps, ptr)|
    ensures out[..] == Overwrite(old(out[..]), len, Text(chunk, jumps, ptr))
    decreases jumps
  {
    hide NameAt, Text, Overwrite;
    ghost var before := out[..];
    ghost var text := Text(chunk, jumps, ptr);
    ghost var done: seq<byte> := [];
    var cur := ptr;
    newLen := len;
    NameStep(chunk, jumps, cur);
    OverwriteNothing(before, len);
    while chunk[cur] != 0
      invariant cur < |chunk| && NameAt(chunk, jumps, cur).Some?
      invariant text == done + Text(chunk, jumps, cur) && newLen == len + |done|
      invariant out[..] == Overwrite(before, len, done)
      decreases |chunk| - cur
    {
      NameStep(chunk, jumps, cur);
      var flag := chunk[cur];
      if IsPointer(flag) {
        var n := chunk[cur + 1] as nat;
        newLen := DnsParseName(chunk, n, out, newLen, jumps - 1);
        Appended(before, len, done, Text(chunk, jumps - 1, n));
        return;
      }
      newLen := PutPiece(chunk, cur, out, newLen);
      ghost var piece := Piece(chunk, cur);
      Appended(before, len, done, piece);
      AppendTwo(done, piece, Text(chunk, jumps, cur + 1 + flag as nat));
      done := done + piece;
      cur := cur + 1 + flag as nat;
    }
    NameStep(chunk, jumps, cur);
    AppendTwo(done, [], []);
  }

  lemma AppendTwo(done: seq<byte>, piece: seq<byte>, rest: seq<byte>)
    ensures done + (piece + rest) == done + piece + rest && done + [] == done
  {
  }

  lemma Appended(buffer: seq<byte>, at: nat, done: seq<byte>, more: seq<byte>)
    requires at + |done| + |more| <= |buffer|
    ensures Overwrite(Overwrite(buffer, at, done), at + |done|, more) == Overwrite(buffer, at, done + more)
  {
    OverwriteTwice(buffer, at, done, |done|, more);
    assert done[..|done|] == done;
  }

  /** The turn of the parser's loop that copies a label. */
  method PutPiece(chunk: seq<byte>, p: nat, out: array<byte>, len: nat) returns (newLen: nat)
    requires p < |chunk| && p + 1 + chunk[p] as nat < |chunk| && len + |Piece(chunk, p)| <= out.Length
    modifies out
    ensures newLen == len + |Piece(chunk, p)| && out[..] == Overwrite(old(out[..]), len, Piece(chunk, p))
  {
    ghost var before := out[..];
    var next := p + 1 + chunk[p] as nat;
    CopyAt(out, len, chunk[p + 1..next]);
    newLen := len + chunk[p] as nat;
    if chunk[next] != 0 {
      CopyAt(out, newLen, [DOT]);
      Appended(before, len, chunk[p + 1..next], [DOT]);
      newLen := newLen + 1;
    }
  }

  // ---------------------------------------------------------------- the request

  /** The twelve header bytes: an identifier, recursion desired, one question. */
  function Header(idHigh: byte, idLow: byte): (h: seq<byte>)
    ensures |h| == 12
  {
    [idHigh, idLow, 1, 0, 0, 1, 0, 0, 0, 0, 0, 0]
  }

  /** Query type A and class IN, in network order. */
  const TYPE_AND_CLASS: seq<byte> := [0, 1, 0, 1]

  /** Header, name, type and class, one after the other; the result is the length of the request. */
  method BuildRequest(header: seq<byte>, qname: array<byte>, request: array<byte>) returns (length: nat)
    requires |header| == 12 && qname != request
    requires |header| + qname.Length + |TYPE_AND_CLASS| <= request.Length
    modifies request
    ensures length == |header| + qname.Length + |TYPE_AND_CLASS|
    ensures request[..length] == header + qname[..] + TYPE_AND_CLASS
  {
    ghost var before, name := request[..], qname[..];
    CopyAt(request, 0, header);
    CopyAt(request, |header|, qname[..]);
    Appended(before, 0, header, name);
    CopyAt(request, |header| + qname.Length, TYPE_AND_CLASS);
    Appended(before, 0, header + name, TYPE_AND_CLASS);
    length := |header| + qname.Length + |TYPE_AND_CLASS|;
    assert request[..length] == request[..][..length];
  }

  /** Where the name at `p` ends for the skipper, which takes every byte for a length. */
  function SkipEnd(buffer: seq<byte>, p: nat): (r: Option<nat>)
    ensures r.Some? ==> p < r.value <= |buffer| && buffer[r.value - 1] == 0
    decreases |buffer| - p
  {
    if p >= |buffer| then None
    else if buffer[p] == 0 then Some(p + 1)
    else SkipEnd(buffer, p + buffer[p] as nat + 1)
  }

  /** The loop of the response parser that steps over the name of a question. */
  method SkipName(buffer: seq<byte>, ptr: nat) returns (end: nat)
    requires SkipEnd(buffer, ptr).Some?
    ensures SkipEnd(buffer, ptr) == Some(end)
  {
    end := ptr;
    var flag := buffer[end];
    end := end + (flag as nat + 1);
    while flag != 0
      invariant SkipEnd(buffer, ptr) == if flag == 0 then Some(end) else SkipEnd(buffer, end)
      decreases if flag == 0 then 0 else 1 + |buffer| - end
    {
      flag := buffer[end];
      end := end + (flag as nat + 1);
    }
  }

  /** An encoded list of labels is skipped to its end, whatever follows. */
  lemma {:induction false} WireIsSkipped(buffer: seq<byte>, p: nat, labels: seq<seq<byte>>)
    requires p + |Encode(labels)| < |buffer| && buffer[p..p + |Encode(labels)| + 1] == Encode(labels) + [0]
    requires forall i :: 0 <= i < |labels| ==> 1 <= |labels[i]| < 256
    ensures SkipEnd(buffer, p) == Some(p + |Encode(labels)| + 1)
    decreases |labels|
  {
    hide Encode;
    WireStep(buffer, p, labels);
    if labels != [] {
      WireIsSkipped(buffer, p + 1 + |labels[0]|, labels[1..]);
    }
  }

  /** What the encoding of a list of labels looks like at its start. */
  lemma WireStep(buffer: seq<byte>, p: nat, labels: seq<seq<byte>>)
    requires p + |Encode(labels)| < |buffer| && buffer[p..p + |Encode(labels)| + 1] == Encode(labels) + [0]
    requires labels != [] ==> 1 <= |labels[0]| < 256
    ensures if labels == [] then buffer[p] == 0 && Encode(labels) == []
            else
              var n := |labels[0]|;
              && buffer[p] as nat == n && p + 1 + n < |buffer| && buffer[p + 1..p + 1 + n] == labels[0]
              && |Encode(labels)| == 1 + n + |Encode(labels[1..])|
              && buffer[p + 1 + n..p + 1 + n + |Encode(labels[1..])| + 1] == Encode(labels[1..]) + [0]
  {
    if labels == [] {
      assert buffer[p] == buffer[p..p + 1][0];
    } else {
      var n, l, rest := LengthByte(labels[0]), labels[0], Encode(labels[1..]) + [0];
      assert Encode(labels) + [0] == [n] + l + rest;
      hide Encode;
      SplitWire(buffer, p, n, l, rest);
    }
  }

  lemma SubSlice(s: seq<byte>, p: nat, n: nat, a: nat, b: nat)
    requires a <= b <= n && p + n <= |s|
    ensures s[p..p + n][a..b] == s[p + a..p + b]
  {
    var t, u := s[p..p + n][a..b], s[p + a..p + b];
    assert |t| == |u|;
    forall k | 0 <= k < |t| ensures t[k] == u[k] {}
  }

  lemma SplitWire(buffer: seq<byte>, p: nat, n: byte, l: seq<byte>, rest: seq<byte>)
    requires p + 1 + |l| + |rest| <= |buffer| && buffer[p..p + 1 + |l| + |rest|] == [n] + l + rest
    ensures buffer[p] == n && buffer[p + 1..p + 1 + |l|] == l && buffer[p + 1 + |l|..p + 1 + |l| + |rest|] == rest
  {
    var wire := [n] + l + rest;
    SubSlice(buffer, p, |wire|, 1, 1 + |l|);
    SubSlice(buffer, p, |wire|, 1 + |l|, |wire|);
    assert buffer[p] == buffer[p..p + |wire|][0] == wire[0];
    assert wire[1..1 + |l|] == l && wire[1 + |l|..] == rest;
  }

  /** An encoded name is read back as the labels it was made from, and never dangles. */
  lemma {:induction false} WireIsName(buffer: seq<byte>, jumps: nat, p: nat, labels: seq<seq<byte>>)
    requires forall i :: 0 <= i < |labels| ==> IsLabel(labels[i])
    requires p + |Encode(labels)| < |buffer| && buffer[p..p + |Encode(labels)| + 1] == Encode(labels) + [0]
    ensures NameAt(buffer, jumps, p) == Some(labels) && !DanglingDot(buffer, jumps, p)
    decreases |labels|
  {
    hide Encode;
    if labels != [] {
      assert IsLabel(labels[0]);
      WireStep(buffer, p, labels);
      var next := p + 1 + |labels[0]|;
      WireIsName(buffer, jumps, next, labels[1..]);
      assert labels == [labels[0]] + labels[1..];
      if labels[1..] == [] {
        WireStep(buffer, next, []);
      }
    } else {
      WireStep(buffer, p, labels);
    }
  }

  /** For every valid host name the encoder fills its buffer exactly. */
  lemma HostFills(h: seq<byte>)
    requires IsHost(h)
    ensures var labels := Tokens(h, 0);
            && labels != [] && (forall i :: 0 <= i < |labels| ==> IsLabel(labels[i]))
            && Join(labels) == h && |Encode(labels)| + 1 == |h| + 2
  {
    var labels :| labels != [] && (forall i :: 0 <= i < |labels| ==> IsLabel(labels[i])) && h == Join(labels);
    TokensOfJoin(labels, h);
    JoinLength(labels);
  }

  /** For any name at all: the buffer is filled exactly when the name has no empty label. */
  lemma FillsExactlyWhenNoEmptyLabel(h: seq<byte>)
    ensures |Encode(Tokens(h, 0))| + 1 <= |h| + 2
    ensures |Encode(Tokens(h, 0))| + 1 == |h| + 2 <==>
            h != [] && h[0] != DOT && h[|h| - 1] != DOT && forall k :: 0 < k < |h| ==> h[k - 1] != DOT || h[k] != DOT
  {
    TokensFull(h, 0);
  }

  /** A name with a token is spelled by its encoding exactly when the buffer is filled. */
  lemma SpelledExactlyWhenFilled(h: seq<byte>)
    requires Tokens(h, 0) != []
    ensures Join(Tokens(h, 0)) == h <==> |Encode(Tokens(h, 0))| + 1 == |h| + 2
  {
    TokensFill(h, 0);
    assert h[0..] == h;
    JoinLength(Tokens(h, 0));
  }

  /** "a." needs three of its four bytes; of "" and "." nothing is encoded at all. */
  lemma TrailingDotAndNoName()
    ensures Encode(Tokens([97, 46], 0)) == [1, 97]
    ensures Tokens([], 0) == [] && Tokens([46], 0) == []
  {
    var h: seq<byte> := [97, DOT];
    assert Scan(h, 0, false) == 0 && Scan(h, 0, true) == 1 && Scan(h, 2, false) == 2;
    assert h[0..1] == [97];
    assert Tokens(h, 2) == [];
    assert Tokens(h, 0) == [[97]];
    assert [[97 as byte]][1..] == [];
    assert Encode([[97 as byte]]) == [1, 97] + Encode([]);
    assert Scan([DOT], 0, false) == 1;
  }

  /**
   * The round trip through the request: the name field ends where type and class begin, the skipper stops exactly
   * there, and the parser gives the host name back.
   */
  method ResolveRoundTrip(hostname: seq<byte>, garbage: seq<byte>, idHigh: byte, idLow: byte, out: array<byte>)
    returns (request: array<byte>, length: nat, end: nat, len: nat)
    requires IsHost(hostname) && |hostname| <= out.Length && |garbage| == |hostname| + 2
    modifies out
    ensures length == request.Length == 12 + |hostname| + 2 + 4
    ensures end + 4 == length
    ensures len == |hostname| && out[..len] == hostname
    // The identifier, the flag "recursion desired", one question and no records; then the name, type A and class IN.
    ensures request[..4] == [idHigh, idLow, 1, 0] && request[4..6] == [0, 1] && request[6..12] == [0, 0, 0, 0, 0, 0]
    ensures request[end - 1] == 0 && request[end..length] == [0, 1, 0, 1]
  {
    hide Encode, Join, NameAt, Text, SkipEnd, Overwrite, IsHost, Tokens, Header;
    HostFills(hostname);
    ghost var labels, before := Tokens(hostname, 0), out[..];
    ghost var wire := Wire(labels);
    var qname := CreateQuestion(hostname, garbage);
    OverwriteShows(garbage, 0, wire);
    request := new byte[12 + qname.Length + 4];
    length := BuildRequest(Header(idHigh, idLow), qname, request);
    var message := request[..];
    assert message == request[..length];
    ReadBack(message, Header(idHigh, idLow), labels);
    RequestBytes(message, idHigh, idLow, labels);
    end := SkipName(message, 12);
    len := DnsParseName(message, 12, out, 0, 0);
    OverwriteShows(before, 0, hostname);
    assert out[..len] == out[..][..len];
  }

  lemma RequestBytes(m: seq<byte>, idHigh: byte, idLow: byte, labels: seq<seq<byte>>)
    requires m == Header(idHigh, idLow) + Wire(labels) + TYPE_AND_CLASS && labels != []
    ensures |m| == 12 + |Wire(labels)| + 4 && |Wire(labels)| > 0
    ensures m[..4] == [idHigh, idLow, 1, 0] && m[4..6] == [0, 1] && m[6..12] == [0, 0, 0, 0, 0, 0]
    ensures m[|m| - 5] == 0 && m[|m| - 4..] == [0, 1, 0, 1]
  {
    hide Encode;
    var h := Header(idHigh, idLow);
    assert m[..12] == h && m[..4] == h[..4] && m[4..6] == h[4..6] && m[6..12] == h[6..12];
  }

  lemma ReadBack(message: seq<byte>, header: seq<byte>, labels: seq<seq<byte>>)
    requires |header| == 12 && message == header + Wire(labels) + TYPE_AND_CLASS && labels != []
    requires forall i :: 0 <= i < |labels| ==> IsLabel(labels[i])
    ensures SkipEnd(message, 12) == Some(12 + |Wire(labels)|)
    ensures NameAt(message, 0, 12) == Some(labels) && Text(message, 0, 12) == Join(labels)
  {
    hide Encode, NameAt, Text, Join, SkipEnd, DanglingDot;
    assert message[12..12 + |Wire(labels)|] == Wire(labels) == Encode(labels) + [0];
    WireIsName(message, 0, 12, labels);
    WireIsSkipped(message, 12, labels);
    ExpandsExactlyUnlessDangling(message, 0, 12);
  }
}
