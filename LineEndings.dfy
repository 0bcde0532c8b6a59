/**
 * Line-ending handling of `SourceCode`: a file that contains "\r\n" anywhere is edited
 * with every "\r\n" turned into "\n", and every "\n" is turned back into "\r\n" when it
 * is written.
 */
module LineEndings {

  /** `/\r\n/.test(s)`. */
  predicate HasCrlf(s: string)
  {
    exists i :: 0 <= i < |s| - 1 && s[i] == '\r' && s[i + 1] == '\n'
  }

  /** `s.replace(/\r\n/g, '\n')`: non-overlapping matches, left to right. */
  function CrlfToLf(s: string): string
  {
    if |s| < 2 then s
    else if s[0] == '\r' && s[1] == '\n' then "\n" + CrlfToLf(s[2..])
    else [s[0]] + CrlfToLf(s[1..])
  }

  /** `s.replace(/\n/g, '\r\n')`. */
  function LfToCrlf(s: string): string
  {
    if s == [] then []
    else (if s[0] == '\n' then "\r\n" else [s[0]]) + LfToCrlf(s[1..])
  }

  /** The text a `SourceCode` holds for the file contents `s`. */
  function Normalised(s: string): string
  {
    if HasCrlf(s) then CrlfToLf(s) else s
  }

  /** The bytes `write` stores for the buffer text `t` of a file whose CRLF flag is `crlf`. */
  function Restored(crlf: bool, t: string): string
  {
    if crlf then LfToCrlf(t) else t
  }

  /** Every "\n" of `s` is the second half of a "\r\n". */
  predicate EveryLfAfterCr(s: string)
  {
    forall i :: 0 <= i < |s| && s[i] == '\n' ==> i > 0 && s[i - 1] == '\r'
  }

  /** A file without "\r\n" is held exactly as read. */
  lemma {:induction false} CrlfToLfWithoutCrlf(s: string)
    requires !HasCrlf(s)
    ensures CrlfToLf(s) == s
    decreases |s|
  {
    if |s| >= 2 {
      assert !(s[0] == '\r' && s[1] == '\n');
      assert !HasCrlf(s[1..]) by {
        forall i | 0 <= i < |s[1..]| - 1 ensures !(s[1..][i] == '\r' && s[1..][i + 1] == '\n') {
          assert s[1..][i] == s[i + 1] && s[1..][i + 1] == s[i + 2];
        }
      }
      CrlfToLfWithoutCrlf(s[1..]);
      assert [s[0]] + s[1..] == s;
    }
  }

  /** Turning "\r\n" into "\n" and back restores a file whose every "\n" follows a "\r". */
  lemma {:induction false} CrlfRoundTrip(s: string)
    requires EveryLfAfterCr(s)
    ensures LfToCrlf(CrlfToLf(s)) == s
    decreases |s|
  {
    if |s| == 1 {
      assert s[0] != '\n';
      assert LfToCrlf(s) == [s[0]] + LfToCrlf([]);
    } else if |s| >= 2 {
      assert s[0] != '\n';
      if s[0] == '\r' && s[1] == '\n' {
        var t := s[2..];
        assert EveryLfAfterCr(t) by {
          forall i | 0 <= i < |t| && t[i] == '\n' ensures i > 0 && t[i - 1] == '\r' {
            assert s[i + 2] == '\n';
          }
        }
        CrlfRoundTrip(t);
        assert LfToCrlf("\n" + CrlfToLf(t)) == "\r\n" + LfToCrlf(CrlfToLf(t));
        assert "\r\n" + t == s;
      } else {
        var t := s[1..];
        assert EveryLfAfterCr(t) by {
          forall i | 0 <= i < |t| && t[i] == '\n' ensures i > 0 && t[i - 1] == '\r' {
            assert s[i + 1] == '\n';
          }
        }
        CrlfRoundTrip(t);
        assert LfToCrlf([s[0]] + CrlfToLf(t)) == [s[0]] + LfToCrlf(CrlfToLf(t));
        assert [s[0]] + t == s;
      }
    }
  }

  /** Writing a buffer that was never edited stores the bytes that were read, when the
      file has no "\r\n" or every "\n" of it is part of one. */
  lemma UneditedWriteRestores(s: string)
    requires !HasCrlf(s) || EveryLfAfterCr(s)
    ensures Restored(HasCrlf(s), Normalised(s)) == s
  {
    if HasCrlf(s) {
      CrlfRoundTrip(s);
    }
  }

  /** `s` has no "\r\r\n": no "\r\n" directly after a "\r". */
  predicate NoCrCrLf(s: string)
  {
    forall i :: 0 <= i < |s| - 2 ==> !(s[i] == '\r' && s[i + 1] == '\r' && s[i + 2] == '\n')
  }

  /** The first character of `CrlfToLf(t)`. */
  lemma CrlfToLfFirst(t: string)
    requires t != []
    ensures CrlfToLf(t) != []
    ensures CrlfToLf(t)[0] == if |t| >= 2 && t[0] == '\r' && t[1] == '\n' then '\n' else t[0]
  {
  }

  /** Without "\r\r\n", one pass of `CrlfToLf` leaves no "\r\n" behind. */
  lemma {:induction false} CrlfToLfLeavesNoCrlf(s: string)
    requires NoCrCrLf(s)
    ensures !HasCrlf(CrlfToLf(s))
    decreases |s|
  {
    if |s| >= 2 {
      var k := if s[0] == '\r' && s[1] == '\n' then 2 else 1;
      var t := s[k..];
      assert NoCrCrLf(t) by {
        forall i | 0 <= i < |t| - 2 ensures !(t[i] == '\r' && t[i + 1] == '\r' && t[i + 2] == '\n') {
          assert t[i] == s[i + k] && t[i + 1] == s[i + k + 1] && t[i + 2] == s[i + k + 2];
        }
      }
      CrlfToLfLeavesNoCrlf(t);
      var r, rt := CrlfToLf(s), CrlfToLf(t);
      assert r == (if k == 2 then "\n" else [s[0]]) + rt;
      if k == 1 && s[0] == '\r' {
        CrlfToLfFirst(t);
        assert |t| >= 2 ==> t[0] == s[1] && t[1] == s[2];
        assert rt[0] != '\n';
      }
      forall i | 0 <= i < |r| - 1 ensures !(r[i] == '\r' && r[i + 1] == '\n') {
        if i > 0 {
          assert r[i] == rt[i - 1] && r[i + 1] == rt[i];
        }
      }
    }
  }

  /** The parser is handed the buffer's own text when the file has no "\r\r\n": turning
      "\r\n" into "\n" a second time changes nothing. */
  lemma NormalisedIsFixed(s: string)
    requires NoCrCrLf(s)
    ensures CrlfToLf(Normalised(s)) == Normalised(s)
  {
    if HasCrlf(s) {
      CrlfToLfLeavesNoCrlf(s);
      CrlfToLfWithoutCrlf(CrlfToLf(s));
    } else {
      CrlfToLfWithoutCrlf(s);
    }
  }

  /** A file with "\r\r\n" is held with "\r\n", and the second pass the parser sees
      shortens it again, so the parser's offsets are not the buffer's. */
  lemma CrCrLfShiftsOffsets()
    ensures Normalised("a\r\r\nb") == "a\r\nb"
    ensures CrlfToLf(Normalised("a\r\r\nb")) == "a\nb"
  {
    var s := "a\r\r\nb";
    assert s[2] == '\r' && s[3] == '\n';
    assert HasCrlf(s);
    assert CrlfToLf(s) == [s[0]] + CrlfToLf(s[1..]);
    assert CrlfToLf(s[1..]) == [s[1]] + CrlfToLf(s[2..]);
    assert CrlfToLf(s[2..]) == "\n" + CrlfToLf(s[4..]);
    assert s[4..] == "b";
    var t := "a\r\nb";
    assert CrlfToLf(t) == [t[0]] + CrlfToLf(t[1..]);
    assert CrlfToLf(t[1..]) == "\n" + CrlfToLf(t[3..]);
    assert t[3..] == "b";
  }
}
