/** Joining a certificate and a key into the single PEM buffer an HTTP identity needs. */
module PemJoin {
  import opened Text
  import opened ClientIdentity

  const NEWLINE: Byte := 10

  /** The lines of a buffer: a final newline ends the last line, it does not start an empty one. */
  function Lines(b: Bytes): (lines: seq<Bytes>)
  {
    var pieces := Split(b, NEWLINE);
    if pieces[|pieces| - 1] == [] then pieces[..|pieces| - 1] else pieces
  }

  predicate EndsLine(b: Bytes) {
    b != [] && b[|b| - 1] == NEWLINE
  }

  function Joined(cert: Bytes, key: Bytes): Bytes {
    cert + (if EndsLine(cert) then [] else [NEWLINE]) + key
  }

  /** Appends into one buffer, as the source does. */
  method ConcatIdentityPem(cert: Bytes, key: Bytes) returns (joined: Bytes)
    ensures joined == Joined(cert, key)
    ensures joined == if cert != [] && cert[|cert| - 1] == 10 then cert + key else cert + [10] + key
    ensures Lines(joined) == Lines(cert) + Lines(key) <==> cert != []
  {
    var needsSeparator := !EndsLine(cert);
    joined := [];
    joined := joined + cert;
    if needsSeparator {
      joined := joined + [NEWLINE];
    }
    joined := joined + key;
    assert joined == Joined(cert, key);
    JoinKeepsLinesExactly(cert, key);
  }

  lemma LinesAppend(a: Bytes, b: Bytes)
    requires EndsLine(a)
    ensures Lines(a + b) == Lines(a) + Lines(b)
  {
    hide Split;
    var body := a[..|a| - 1];
    assert a == body + [NEWLINE] + [];
    assert a + b == body + [NEWLINE] + b;
    SplitAppend(body, [], NEWLINE);
    SplitAppend(body, b, NEWLINE);
    SplitEmpty(NEWLINE);
  }

  lemma SplitEmpty(sep: Byte)
    ensures Split([], sep) == [[]]
  {
  }

  lemma {:induction false} LastPieceEmpty(s: Bytes)
    ensures var pieces := Split(s, NEWLINE); pieces[|pieces| - 1] == [] <==> s == [] || EndsLine(s)
    decreases |s|
  {
    hide IndexOf;
    var k := IndexOf(s, NEWLINE);
    if k < |s| {
      LastPieceEmpty(s[k + 1..]);
    }
  }

  lemma FinalNewlineIsNoLine(a: Bytes)
    requires a != [] && !EndsLine(a)
    ensures Lines(a + [NEWLINE]) == Lines(a)
  {
    hide Split;
    assert a + [NEWLINE] == a + [NEWLINE] + [];
    SplitAppend(a, [], NEWLINE);
    SplitEmpty(NEWLINE);
    LastPieceEmpty(a);
  }

  /** The joined buffer has the certificate's lines then the key's, exactly when there is a certificate. */
  lemma JoinKeepsLinesExactly(cert: Bytes, key: Bytes)
    ensures Lines(Joined(cert, key)) == Lines(cert) + Lines(key) <==> cert != []
  {
    if cert == [] {
      assert Joined(cert, key) == [NEWLINE] + key;
      LinesAppend([NEWLINE], key);
      assert [NEWLINE] == [] + [NEWLINE] + [];
      SplitAppend([], [], NEWLINE);
    } else if EndsLine(cert) {
      assert Joined(cert, key) == cert + key;
      LinesAppend(cert, key);
    } else {
      LinesAppend(cert + [NEWLINE], key);
      FinalNewlineIsNoLine(cert);
    }
  }

  /** Whether the certificate file ended with a newline makes no difference to the result. */
  lemma TrailingNewlineIsImmaterial(cert: Bytes, key: Bytes)
    requires !EndsLine(cert)
    ensures Joined(cert + [NEWLINE], key) == Joined(cert, key)
  {
    assert EndsLine(cert + [NEWLINE]);
    assert cert + [NEWLINE] + [] == cert + [NEWLINE];
  }
}
