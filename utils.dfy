/**
 * Field predicates and the bech32m envelope (src/utils.ts). The Stacks address
 * check, the date parser and the bech32m library are external: they are the
 * function fields of `Externals`, passed to every operation that uses them.
 */
module Utils {
  import opened Types
  import opened Strings

  /**
   * The collaborators the codec calls but does not define.
   *  - isStacksAddress: `c32addressDecode` succeeds on the string;
   *  - isIsoDate: `new Date(s)` is not an invalid date;
   *  - bech32mEncode(hrp, text): the bech32m string of the UTF-8 bytes of
   *    `text`, or `None` when the library throws (length limit of 512);
   *  - bech32mDecode(s): the prefix and the decoded text, or `None` when the
   *    library's `decode` throws (checksum, character set, length). The prefix
   *    is checked before `fromWords` runs, so under a prefix other than `stx`
   *    the text is never looked at; under `stx`, a `fromWords` failure
   *    (padding) is `None` too.
   */
  datatype Externals = Externals(
    isStacksAddress: string -> bool,
    isIsoDate: string -> bool,
    bech32mEncode: (string, string) -> Option<string>,
    bech32mDecode: string -> Option<(string, string)>)

  /**
   * The bech32m library's own round trip under the prefix `stx`: what it
   * encodes, it decodes to that prefix and the same text.
   */
  ghost predicate Lawful(ext: Externals) {
    forall text :: ext.bech32mEncode(Hrp, text).Some? ==>
      ext.bech32mDecode(ext.bech32mEncode(Hrp, text).value) == Some((Hrp, text))
  }

  /** The human-readable prefix of every Stacks Pay envelope. */
  const Hrp: string := "stx"

  /** `bech32mEncode(data)`: always under the prefix `stx`. */
  function Bech32mEncode(ext: Externals, data: string): Result<string> {
    match ext.bech32mEncode(Hrp, data)
    case Some(s) => Ok(s)
    case None => Err(Bech32Failure)
  }

  /** `bech32mDecode(s)`: library failures propagate, a prefix other than `stx` is refused. */
  function Bech32mDecode(ext: Externals, s: string): Result<string> {
    match ext.bech32mDecode(s)
    case None => Err(Bech32Failure)
    case Some((prefix, data)) => if prefix != Hrp then Err(InvalidHrp) else Ok(data)
  }

  lemma Bech32mRoundTrip(ext: Externals, data: string)
    requires Lawful(ext)
    ensures Bech32mEncode(ext, data).Ok? ==> Bech32mDecode(ext, Bech32mEncode(ext, data).value) == Ok(data)
  {
  }

  /**
   * The prefix check: decoding succeeds exactly when the library decodes the
   * string and reports the prefix `stx`; any other reported prefix is refused
   * with `InvalidHrp`.
   */
  lemma Bech32mPrefixCheck(ext: Externals, s: string)
    ensures Bech32mDecode(ext, s).Ok? <==> ext.bech32mDecode(s).Some? && ext.bech32mDecode(s).value.0 == Hrp
    ensures Bech32mDecode(ext, s).Ok? ==> Bech32mDecode(ext, s).value == ext.bech32mDecode(s).value.1
    ensures ext.bech32mDecode(s).Some? && ext.bech32mDecode(s).value.0 != Hrp ==> Bech32mDecode(ext, s) == Err(InvalidHrp)
    ensures ext.bech32mDecode(s).None? ==> Bech32mDecode(ext, s) == Err(Bech32Failure)
  {
  }

  // ---------------------------------------------------------------------------
  // isValidAmount: the pattern  ^[0-9]+(\.[0-9]+)?$

  predicate IsDigit(c: char) {
    '0' <= c <= '9'
  }

  predicate AllDigits(s: string) {
    forall i :: 0 <= i < |s| ==> IsDigit(s[i])
  }

  /** A `.` at position k with all digits on both sides (the left side possibly empty). */
  ghost predicate PointAt(s: string, k: int) {
    0 <= k < |s| && s[k] == '.' && AllDigits(s[..k]) && AllDigits(s[k + 1..])
  }

  /** The language of the amount pattern: digits, or digits `.` digits, both runs non-empty. */
  ghost predicate AmountLanguage(s: string) {
    (|s| > 0 && AllDigits(s)) || exists k :: 0 < k < |s| - 1 && PointAt(s, k)
  }

  /** States of the matcher for the amount pattern. */
  datatype AmountState = Start | Whole | Point | Fraction | Reject {
    predicate Accepting() {
      this == Whole || this == Fraction
    }
  }

  function AmountStep(q: AmountState, c: char): AmountState {
    match q
    case Start => if IsDigit(c) then Whole else Reject
    case Whole => if IsDigit(c) then Whole else if c == '.' then Point else Reject
    case Point => if IsDigit(c) then Fraction else Reject
    case Fraction => if IsDigit(c) then Fraction else Reject
    case Reject => Reject
  }

  function AmountRun(q: AmountState, s: string): AmountState
    decreases |s|
  {
    if s == [] then q else AmountRun(AmountStep(q, s[0]), s[1..])
  }

  /** `isValidAmount(amount)`: the whole string matches the pattern. */
  predicate IsValidAmount(amount: string) {
    AmountRun(Start, amount).Accepting()
  }

  lemma {:induction false} RunReject(s: string)
    ensures AmountRun(Reject, s) == Reject
  {
    if s != [] {
      RunReject(s[1..]);
    }
  }

  lemma {:induction false} RunFraction(s: string)
    ensures AmountRun(Fraction, s) == if AllDigits(s) then Fraction else Reject
  {
    if s != [] {
      if IsDigit(s[0]) {
        RunFraction(s[1..]);
        assert AllDigits(s) <==> AllDigits(s[1..]) by {
          if AllDigits(s[1..]) {
            assert forall i :: 1 <= i < |s| ==> s[i] == s[1..][i - 1];
          }
        }
      } else {
        RunReject(s[1..]);
      }
    }
  }

  lemma RunPoint(s: string)
    ensures AmountRun(Point, s).Accepting() <==> |s| > 0 && AllDigits(s)
  {
    if s != [] {
      if IsDigit(s[0]) {
        RunFraction(s[1..]);
        assert AllDigits(s) <==> AllDigits(s[1..]) by {
          if AllDigits(s[1..]) {
            assert forall i :: 1 <= i < |s| ==> s[i] == s[1..][i - 1];
          }
        }
      } else {
        RunReject(s[1..]);
      }
    }
  }

  /** A point in the tail after a leading digit is a point of the whole string. */
  lemma PointShift(s: string, k: int)
    requires |s| > 0 && IsDigit(s[0]) && PointAt(s[1..], k)
    ensures PointAt(s, k + 1)
  {
    assert s[..k + 1] == [s[0]] + s[1..][..k];
    assert s[k + 2..] == s[1..][k + 1..];
  }

  /** A point after position 0 is a point of the tail, and the string starts with a digit. */
  lemma PointUnshift(s: string, k: int)
    requires 0 < k && PointAt(s, k)
    ensures IsDigit(s[0]) && PointAt(s[1..], k - 1)
  {
    assert s[..k][0] == s[0];
    assert s[1..][..k - 1] == s[1..k];
    assert s[1..][k..] == s[k + 1..];
  }

  /** From inside the integer digits: the rest is digits, or digits `.` one or more digits. */
  lemma {:induction false} RunWhole(s: string)
    ensures AmountRun(Whole, s).Accepting() <==> AllDigits(s) || exists k :: 0 <= k < |s| - 1 && PointAt(s, k)
  {
    if s == [] {
      return;
    }
    var t := s[1..];
    assert AllDigits(t) ==> forall i :: 1 <= i < |s| ==> s[i] == t[i - 1];
    if IsDigit(s[0]) {
      RunWhole(t);
      assert AllDigits(s) ==> AllDigits(t);
      if exists k :: 0 <= k < |t| - 1 && PointAt(t, k) {
        var k :| 0 <= k < |t| - 1 && PointAt(t, k);
        PointShift(s, k);
      }
      if exists k :: 0 <= k < |s| - 1 && PointAt(s, k) {
        var k :| 0 <= k < |s| - 1 && PointAt(s, k);
        PointUnshift(s, k);
      }
    } else if s[0] == '.' {
      RunPoint(t);
      if |t| > 0 && AllDigits(t) {
        assert PointAt(s, 0);
      }
      forall k | 0 < k < |s| - 1 ensures !PointAt(s, k) {
        assert s[..k][0] == s[0];
      }
    } else {
      RunReject(t);
      forall k | 0 <= k < |s| - 1 ensures !PointAt(s, k) {
        if k > 0 {
          assert s[..k][0] == s[0];
        }
      }
    }
  }

  /** `isValidAmount` accepts exactly the language of `^[0-9]+(\.[0-9]+)?$`. */
  lemma {:induction false} AmountMatchesPattern(s: string)
    ensures IsValidAmount(s) <==> AmountLanguage(s)
  {
    if s == [] {
      return;
    }
    var t := s[1..];
    assert AllDigits(t) ==> forall i :: 1 <= i < |s| ==> s[i] == t[i - 1];
    if IsDigit(s[0]) {
      RunWhole(t);
      assert AllDigits(s) ==> AllDigits(t);
      if exists k :: 0 <= k < |t| - 1 && PointAt(t, k) {
        var k :| 0 <= k < |t| - 1 && PointAt(t, k);
        PointShift(s, k);
      }
      if exists k :: 0 < k < |s| - 1 && PointAt(s, k) {
        var k :| 0 < k < |s| - 1 && PointAt(s, k);
        PointUnshift(s, k);
      }
    } else {
      assert AmountStep(Start, s[0]) == Reject;
      RunReject(t);
      forall k | 0 < k < |s| - 1 ensures !PointAt(s, k) {
        assert s[..k][0] == s[0];
      }
    }
  }

  /** Every accepted amount is non-empty and has at most one `.`, neither first nor last. */
  lemma AmountShape(s: string)
    requires IsValidAmount(s)
    ensures |s| > 0 && Count(s, '.') <= 1 && s[0] != '.' && s[|s| - 1] != '.'
  {
    AmountMatchesPattern(s);
    if |s| > 0 && AllDigits(s) {
      assert '.' !in s by {
        forall i | 0 <= i < |s| ensures s[i] != '.' {
          assert IsDigit(s[i]);
        }
      }
      CountAbsent(s, '.');
    } else {
      var k :| 0 < k < |s| - 1 && PointAt(s, k);
      assert s[..k][0] == s[0] && s[k + 1..][|s| - k - 2] == s[|s| - 1];
      assert s == s[..k] + ([s[k]] + s[k + 1..]);
      CountAppend(s[..k], [s[k]] + s[k + 1..], '.');
      CountAppend([s[k]], s[k + 1..], '.');
      assert '.' !in s[..k] by {
        forall i | 0 <= i < k ensures s[..k][i] != '.' {
          assert IsDigit(s[..k][i]);
        }
      }
      var tail := s[k + 1..];
      assert '.' !in tail by {
        forall i | 0 <= i < |tail| ensures tail[i] != '.' {
          assert IsDigit(tail[i]);
        }
      }
      CountAbsent(s[..k], '.');
      CountAbsent(s[k + 1..], '.');
    }
  }

  // ---------------------------------------------------------------------------
  // isValidToken

  /** `isValidToken(token)`: `STX`, or exactly two `.`-pieces: an address and a non-empty contract name. */
  predicate IsValidToken(ext: Externals, token: string) {
    if token == "STX" then true
    else
      var parts := Split(token, '.');
      |parts| == 2 && ext.isStacksAddress(parts[0]) && |parts[1]| > 0
  }

  /**
   * Besides `STX`, a token is valid exactly when it holds one `.`, the text
   * before it is a Stacks address and the text after it is not empty.
   */
  lemma TokenCharacterization(ext: Externals, token: string)
    ensures IsValidToken(ext, token) <==>
      token == "STX" ||
      (Count(token, '.') == 1 && IndexOf(token, '.').Some? &&
       ext.isStacksAddress(token[..IndexOf(token, '.').value]) && IndexOf(token, '.').value + 1 < |token|)
  {
    if token != "STX" {
      SplitCount(token, '.');
      var parts := Split(token, '.');
      match IndexOf(token, '.')
      case None =>
        CountAbsent(token, '.');
      case Some(i) =>
        var rest := Split(token[i + 1..], '.');
        assert parts == [token[..i]] + rest;
        if |rest| == 1 {
          assert rest == [token[i + 1..]];
        }
    }
  }

  /** A token with no `.` or with several is refused, whatever the address check says. */
  lemma TokenNeedsOneDot(ext: Externals, token: string)
    requires token != "STX" && Count(token, '.') != 1
    ensures !IsValidToken(ext, token)
  {
    SplitCount(token, '.');
  }

  /** `address.contract` is accepted when the address is valid and the contract name not empty. */
  lemma TokenAcceptsContract(ext: Externals, address: string, contract: string)
    requires '.' !in address && '.' !in contract && |contract| > 0
    ensures IsValidToken(ext, address + "." + contract) <==> ext.isStacksAddress(address)
  {
    var token := address + "." + contract;
    assert token == Join([address, contract], '.');
    SplitJoin([address, contract], '.');
    assert token[|address|] == '.';
    assert '.' !in "STX";
  }

  /** The amounts the test suite uses and the ones it rejects. */
  lemma AmountExamples()
    ensures IsValidAmount("1000") && IsValidAmount("1000.5") && IsValidAmount("500")
    ensures !IsValidAmount("") && !IsValidAmount("-1") && !IsValidAmount("1e5")
    ensures !IsValidAmount("1.") && !IsValidAmount(".5")
  {
  }

  /** `STX` is accepted without asking the address check; the match is case-sensitive. */
  lemma TokenExamples(ext: Externals)
    ensures IsValidToken(ext, "STX")
    ensures !IsValidToken(ext, "stx")
  {
    TokenNeedsOneDot(ext, "stx");
  }
}
