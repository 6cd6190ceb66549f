/** Declarative specification of the bytes a file contributes to its digest:
    the binary heuristic, the CRLF collapsing pass, and the properties that
    relate them. The imperative counterparts live in module `Hasher`. */
module Content {

  type Byte = bv8

  const NUL: Byte := 0
  const LF: Byte := 10
  const CR: Byte := 13

  /** Only this many leading bytes are inspected by the binary heuristic. */
  const BinaryScanLimit: nat := 8000

  /** A buffer is binary when a zero byte occurs among its first
      `BinaryScanLimit` bytes (the heuristic git uses). */
  predicate LooksBinary(s: seq<Byte>)
  {
    exists i :: 0 <= i < |s| && i < BinaryScanLimit && s[i] == NUL
  }

  /** True when the first byte of `s` is a CR that the normaliser drops:
      it is followed by LF, or it is the last byte of the buffer. */
  predicate DropsHead(s: seq<Byte>)
    requires |s| > 0
  {
    s[0] == CR && (|s| == 1 || s[1] == LF)
  }

  /** Line-ending normalisation of a text buffer, by recursion on the input
      with one byte of lookahead: a CR followed by LF is removed, a CR that
      ends the buffer is removed, every other byte is kept. */
  function Normalize(s: seq<Byte>): (r: seq<Byte>)
    ensures |r| <= |s|
    decreases |s|
  {
    if |s| == 0 then []
    else if DropsHead(s) then Normalize(s[1..])
    else [s[0]] + Normalize(s[1..])
  }

  /** The bytes handed to the digest for a buffer that was read: binary
      buffers verbatim, text buffers normalised. */
  function Prepared(s: seq<Byte>): seq<Byte>
  {
    if LooksBinary(s) then s else Normalize(s)
  }

  /** Position `j` of `s` holds a CR that is followed by LF or is last. */
  predicate DroppedAt(s: seq<Byte>, j: int)
  {
    0 <= j < |s| && s[j] == CR && (j + 1 == |s| || s[j + 1] == LF)
  }

  /** All positions of `s` that the normaliser removes. */
  function DroppedPositions(s: seq<Byte>): set<int>
  {
    set j | 0 <= j < |s| && DroppedAt(s, j)
  }

  /** The subsequence of `s[k..]` made of the positions not in `d`. */
  function KeepFrom(s: seq<Byte>, d: set<int>, k: nat): (r: seq<Byte>)
    requires k <= |s|
    ensures |r| <= |s| - k
    decreases |s| - k
  {
    if k == |s| then []
    else (if k in d then [] else [s[k]]) + KeepFrom(s, d, k + 1)
  }

  /** `s` with every CR byte removed. */
  function StripCr(s: seq<Byte>): (r: seq<Byte>)
    ensures CR !in r
    decreases |s|
  {
    if |s| == 0 then []
    else (if s[0] == CR then [] else [s[0]]) + StripCr(s[1..])
  }

  /** How many times `b` occurs in `s`. */
  function Occurrences(s: seq<Byte>, b: Byte): (n: nat)
    ensures n <= |s|
    decreases |s|
  {
    if |s| == 0 then 0
    else (if s[0] == b then 1 else 0) + Occurrences(s[1..], b)
  }

  /** Nothing in `t` is collapsed: every CR is followed by a byte other
      than LF. */
  predicate NothingToCollapse(t: seq<Byte>)
  {
    forall j :: 0 <= j < |t| && t[j] == CR ==> j + 1 < |t| && t[j + 1] != LF
  }

  /** The checkout of `t` with CRLF line endings: every LF becomes CR LF. */
  function ToCrLf(t: seq<Byte>): (r: seq<Byte>)
    ensures |r| >= |t|
    decreases |t|
  {
    if |t| == 0 then []
    else (if t[0] == LF then [CR, LF] else [t[0]]) + ToCrLf(t[1..])
  }

  // ---------------------------------------------------------------------
  // The binary heuristic
  // ---------------------------------------------------------------------

  /** Bytes past the scan limit never change the classification. */
  lemma BinaryIgnoresBytesPastLimit(s: seq<Byte>, t: seq<Byte>)
    requires |s| >= BinaryScanLimit
    ensures LooksBinary(s + t) == LooksBinary(s)
  {
    if LooksBinary(s + t) {
      var i :| 0 <= i < |s + t| && i < BinaryScanLimit && (s + t)[i] == NUL;
      assert s[i] == NUL;
    }
    if LooksBinary(s) {
      var i :| 0 <= i < |s| && i < BinaryScanLimit && s[i] == NUL;
      assert (s + t)[i] == NUL;
    }
  }

  // ---------------------------------------------------------------------
  // What the normaliser removes
  // ---------------------------------------------------------------------

  lemma {:induction false} NormalizeKeepsFrom(s: seq<Byte>, k: nat)
    requires k <= |s|
    ensures Normalize(s[k..]) == KeepFrom(s, DroppedPositions(s), k)
    decreases |s| - k
  {
    if k < |s| {
      var t := s[k..];
      assert t[0] == s[k];
      assert t[1..] == s[k + 1..];
      assert |t| > 1 ==> t[1] == s[k + 1];
      assert DropsHead(t) <==> k in DroppedPositions(s);
      NormalizeKeepsFrom(s, k + 1);
    }
  }

  /** The normaliser deletes exactly the CR bytes that precede an LF or end
      the buffer, and keeps every other byte in order. */
  lemma NormalizeDeletesExactly(s: seq<Byte>)
    ensures Normalize(s) == KeepFrom(s, DroppedPositions(s), 0)
    ensures forall j :: j in DroppedPositions(s) ==> 0 <= j < |s| && s[j] == CR
  {
    NormalizeKeepsFrom(s, 0);
    assert s[0..] == s;
  }

  /** Deleting every CR from input and output gives equal sequences: only CR
      bytes are ever removed. */
  lemma {:induction false} OnlyCrRemoved(s: seq<Byte>)
    ensures StripCr(Normalize(s)) == StripCr(s)
    decreases |s|
  {
    if |s| > 0 {
      OnlyCrRemoved(s[1..]);
      if !DropsHead(s) {
        var r := [s[0]] + Normalize(s[1..]);
        assert r[1..] == Normalize(s[1..]);
      }
    }
  }

  /** Every byte other than CR (LF in particular) occurs as often in the
      output as in the input, and CR occurs at most as often. */
  lemma {:induction false} OnlyCrCountsChange(s: seq<Byte>)
    ensures Occurrences(Normalize(s), CR) <= Occurrences(s, CR)
    ensures forall b :: b != CR ==> Occurrences(Normalize(s), b) == Occurrences(s, b)
    decreases |s|
  {
    if |s| > 0 {
      OnlyCrCountsChange(s[1..]);
      if !DropsHead(s) {
        var r := [s[0]] + Normalize(s[1..]);
        assert r[1..] == Normalize(s[1..]);
      }
    }
  }

  /** A buffer is returned unchanged exactly when it has nothing to
      collapse. */
  lemma {:induction false} NormalizeFixedPointIff(t: seq<Byte>)
    ensures Normalize(t) == t <==> NothingToCollapse(t)
  {
    if NothingToCollapse(t) {
      NormalizeFixedPoint(t);
    } else {
      var j :| 0 <= j < |t| && t[j] == CR && !(j + 1 < |t| && t[j + 1] != LF);
      DroppedShortens(t, j);
    }
  }

  lemma {:induction false} NormalizeFixedPoint(t: seq<Byte>)
    requires NothingToCollapse(t)
    ensures Normalize(t) == t
    decreases |t|
  {
    if |t| > 0 {
      assert !DropsHead(t);
      var u := t[1..];
      forall j | 0 <= j < |u| && u[j] == CR
        ensures j + 1 < |u| && u[j + 1] != LF
      {
        assert t[j + 1] == CR;
      }
      NormalizeFixedPoint(u);
    }
  }

  lemma {:induction false} DroppedShortens(t: seq<Byte>, j: nat)
    requires DroppedAt(t, j)
    ensures |Normalize(t)| < |t|
    decreases j
  {
    if j > 0 {
      DroppedShortens(t[1..], j - 1);
    }
  }

  /** A text buffer without any CR byte is returned unchanged. */
  lemma {:induction false} NoCrUnchanged(t: seq<Byte>)
    requires CR !in t
    ensures Normalize(t) == t
  {
    NormalizeFixedPoint(t);
  }

  /** Appending a CR to a buffer adds nothing to the output: the new final
      CR is dropped. When the buffer already ended in CR, that CR is no
      longer last and is now followed by a CR rather than LF, so it is
      emitted. */
  lemma {:induction false} TrailingCrDropped(s: seq<Byte>)
    ensures Normalize(s + [CR]) ==
      if |s| > 0 && s[|s| - 1] == CR then Normalize(s) + [CR] else Normalize(s)
    decreases |s|
  {
    if |s| == 0 {
      assert s + [CR] == [CR];
      assert [CR][1..] == [];
    } else {
      var t := s + [CR];
      assert t[0] == s[0];
      assert t[1..] == s[1..] + [CR];
      TrailingCrDropped(s[1..]);
      if |s| == 1 {
        assert s[1..] == [];
        assert t[1..] == [CR];
        assert [CR][1..] == [];
        assert Normalize(s[1..]) == [];
        assert Normalize(t[1..]) == [];
        assert t[1] == CR && !DropsHead(t);
      } else {
        assert t[1] == s[1];
        assert DropsHead(t) == DropsHead(s);
        assert s[1..][|s[1..]| - 1] == s[|s| - 1];
      }
    }
  }

  /** The pass is not idempotent: CR CR LF becomes CR LF, which a second
      pass turns into LF. */
  lemma NotIdempotent()
    ensures Normalize([CR, CR, LF]) == [CR, LF]
    ensures Normalize(Normalize([CR, CR, LF])) == [LF]
  {
    var s: seq<Byte> := [CR, CR, LF];
    assert s[1..] == [CR, LF];
    assert s[1..][1..] == [LF];
    assert [LF][1..] == [];
    assert Normalize([LF]) == [LF];
    assert Normalize([CR, LF]) == [LF];
  }

  /** The pass can be run on two chunks separately when the first chunk
      does not end in CR: the one byte of lookahead never crosses the cut. */
  lemma {:induction false} NormalizeSplits(a: seq<Byte>, b: seq<Byte>)
    requires |a| == 0 || a[|a| - 1] != CR
    ensures Normalize(a + b) == Normalize(a) + Normalize(b)
    decreases |a|
  {
    if |a| > 0 {
      var ab := a + b;
      assert ab[0] == a[0];
      assert ab[1..] == a[1..] + b;
      NormalizeSplits(a[1..], b);
      if |a| == 1 {
        assert a[1..] == [];
        assert ab[1..] == b;
        assert !DropsHead(ab) && !DropsHead(a);
        calc {
          Normalize(ab);
          [a[0]] + Normalize(b);
          [a[0]] + Normalize(a[1..]) + Normalize(b);
          Normalize(a) + Normalize(b);
        }
      } else {
        assert ab[1] == a[1];
        assert DropsHead(ab) == DropsHead(a);
        if DropsHead(a) {
          assert Normalize(ab) == Normalize(a[1..] + b);
          assert Normalize(a) == Normalize(a[1..]);
        } else {
          assert Normalize(ab) == [a[0]] + Normalize(a[1..] + b);
          assert Normalize(a) == [a[0]] + Normalize(a[1..]);
        }
      }
    } else {
      assert a + b == b;
    }
  }

  // ---------------------------------------------------------------------
  // Line-ending conventions
  // ---------------------------------------------------------------------

  lemma ToCrLfHead(t: seq<Byte>)
    requires |t| > 0 && t[0] != LF
    ensures |ToCrLf(t)| > 0 && ToCrLf(t)[0] == t[0]
  {
  }

  /** Normalising the CRLF checkout of a buffer with nothing to collapse
      gives back that buffer: the fingerprint does not depend on the
      line-ending convention of the checkout. */
  lemma {:induction false} CrLfCheckoutNormalizes(t: seq<Byte>)
    requires NothingToCollapse(t)
    ensures Normalize(ToCrLf(t)) == t
    decreases |t|
  {
    if |t| > 0 {
      var u := t[1..];
      forall j | 0 <= j < |u| && u[j] == CR
        ensures j + 1 < |u| && u[j + 1] != LF
      {
        assert t[j + 1] == CR;
      }
      CrLfCheckoutNormalizes(u);
      var r := ToCrLf(u);
      if t[0] == LF {
        var c := [CR, LF] + r;
        assert ToCrLf(t) == c;
        assert DropsHead(c);
        assert c[1..] == [LF] + r;
        assert ([LF] + r)[1..] == r;
        assert Normalize([LF] + r) == [LF] + Normalize(r);
        assert t == [LF] + u;
      } else {
        var c := [t[0]] + r;
        assert ToCrLf(t) == c;
        assert c[1..] == r;
        if t[0] == CR {
          assert |t| > 1 && t[1] != LF;
          ToCrLfHead(u);
        }
        assert !DropsHead(c);
        assert t == [t[0]] + u;
      }
    }
  }

  lemma {:induction false} ToCrLfNulOrigin(t: seq<Byte>, i: nat)
    requires i < |ToCrLf(t)| && ToCrLf(t)[i] == NUL
    ensures exists j :: 0 <= j <= i && j < |t| && t[j] == NUL
    decreases |t|
  {
    var c: seq<Byte> := if t[0] == LF then [CR, LF] else [t[0]];
    assert ToCrLf(t) == c + ToCrLf(t[1..]);
    if i < |c| {
      assert c[i] == NUL;
      assert t[0] == NUL;
    } else {
      assert ToCrLf(t[1..])[i - |c|] == NUL;
      ToCrLfNulOrigin(t[1..], i - |c|);
      var j :| 0 <= j <= i - |c| && j < |t[1..]| && t[1..][j] == NUL;
      assert t[j + 1] == NUL;
    }
  }

  /** Converting LF to CR LF never turns a text buffer into a binary one:
      a zero byte can only move further from the start. */
  lemma CrLfKeepsText(t: seq<Byte>)
    ensures LooksBinary(ToCrLf(t)) ==> LooksBinary(t)
  {
    if LooksBinary(ToCrLf(t)) {
      var i :| 0 <= i < |ToCrLf(t)| && i < BinaryScanLimit && ToCrLf(t)[i] == NUL;
      ToCrLfNulOrigin(t, i);
    }
  }

  /** End to end: a text file with nothing to collapse and its CRLF checkout
      feed the same bytes to the digest, namely the file's own bytes. */
  lemma LineEndingInvariance(t: seq<Byte>)
    requires !LooksBinary(t) && NothingToCollapse(t)
    ensures Prepared(ToCrLf(t)) == t
    ensures Prepared(t) == t
  {
    CrLfKeepsText(t);
    CrLfCheckoutNormalizes(t);
    NormalizeFixedPoint(t);
  }
}
