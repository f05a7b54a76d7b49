/** Identifier and username validators used by the user and session routes. */
module UserHelpers {
  import opened Text

  /** `[0-9a-f]` under the regular expression's case-insensitive flag. */
  predicate IsHexDigit(c: char)
  {
    ('0' <= c <= '9') || ('a' <= c <= 'f') || ('A' <= c <= 'F')
  }

  /** One position of the anchored identifier pattern. */
  datatype CharClass =
    | AnyHex            // [0-9a-f]
    | Exactly(c: char)  // a literal character ('-' or the version digit '4')
    | Variant           // [89ab]

  /** Whether character `c` matches class `k`, case-insensitively. */
  predicate ClassAccepts(k: CharClass, c: char)
  {
    match k
    case AnyHex => IsHexDigit(c)
    case Exactly(l) => c == l
    case Variant => c in {'8', '9', 'a', 'b', 'A', 'B'}
  }

  function Repeat(k: CharClass, n: nat): (r: seq<CharClass>)
    ensures |r| == n && forall i :: 0 <= i < n ==> r[i] == k
  {
    if n == 0 then [] else [k] + Repeat(k, n - 1)
  }

  /** The pattern `^[0-9a-f]{8}-[0-9a-f]{4}-4[0-9a-f]{3}-[89ab][0-9a-f]{3}-[0-9a-f]{12}$`
      written as one class per matched character. */
  function UuidPattern(): seq<CharClass>
  {
    Repeat(AnyHex, 8) + [Exactly('-')] + Repeat(AnyHex, 4) + [Exactly('-'), Exactly('4')]
    + Repeat(AnyHex, 3) + [Exactly('-'), Variant] + Repeat(AnyHex, 3) + [Exactly('-')]
    + Repeat(AnyHex, 12)
  }

  /** An anchored match of a fixed-width pattern: same length, every position accepted. */
  predicate Matches(p: seq<CharClass>, s: string)
  {
    |p| == |s| && forall i :: 0 <= i < |s| ==> ClassAccepts(p[i], s[i])
  }

  /** `isValidUserId`: the string is a version-4 shaped UUID. */
  predicate IsValidUserId(s: string)
  {
    Matches(UuidPattern(), s)
  }

  predicate HexRun(s: string, lo: nat, hi: nat)
    requires lo <= hi <= |s|
  {
    forall i :: lo <= i < hi ==> IsHexDigit(s[i])
  }

  /** The 8-4-4-4-12 reading of the identifier pattern: 36 characters, dashes at
      8, 13, 18 and 23, hex digits elsewhere, `4` opening the third group and
      one of 8, 9, a, b (either case) opening the fourth. */
  predicate UuidGroups(s: string)
  {
      && |s| == 36
      && HexRun(s, 0, 8) && s[8] == '-'
      && HexRun(s, 9, 13) && s[13] == '-'
      && s[14] == '4' && HexRun(s, 15, 18) && s[18] == '-'
      && s[19] in {'8', '9', 'a', 'b', 'A', 'B'} && HexRun(s, 20, 23) && s[23] == '-'
      && HexRun(s, 24, 36)
  }

  /** The identifier pattern holds exactly for the 8-4-4-4-12 grouping. */
  lemma UserIdGroups(s: string)
    ensures IsValidUserId(s) <==> UuidGroups(s)
  {
    var p := UuidPattern();
    assert |p| == 36;
    assert forall i :: 0 <= i < 8 ==> p[i] == AnyHex;
    assert p[8] == Exactly('-');
    assert forall i :: 9 <= i < 13 ==> p[i] == AnyHex;
    assert p[13] == Exactly('-') && p[14] == Exactly('4');
    assert forall i :: 15 <= i < 18 ==> p[i] == AnyHex;
    assert p[18] == Exactly('-') && p[19] == Variant;
    assert forall i :: 20 <= i < 23 ==> p[i] == AnyHex;
    assert p[23] == Exactly('-');
    assert forall i :: 24 <= i < 36 ==> p[i] == AnyHex;
  }

  /** A well-formed identifier starts and ends with a hex digit, so trimming
      leaves it as it is. */
  lemma ValidUserIdIsTrimmed(s: string)
    requires IsValidUserId(s)
    ensures Trim(s) == s
  {
    var p := UuidPattern();
    assert |p| == 36 && p[0] == AnyHex && p[35] == AnyHex;
    assert ClassAccepts(p[0], s[0]) && ClassAccepts(p[35], s[35]);
    TrimUnpadded(s);
  }

  /** The identifiers the project's unit tests reject. */
  lemma UserIdExamples()
    ensures !IsValidUserId("invalid-uuid")
    ensures !IsValidUserId("")
  {
  }

  /** The identifier the project's unit tests accept. */
  lemma UserIdAccepted(good: string)
    requires good == "123e4567-e89b-42d3-9456-426614174000"
    ensures IsValidUserId(good)
  {
    AcceptedHead(good);
    AcceptedMiddle(good);
    AcceptedTail(good);
    UserIdGroups(good);
  }

  /** The accepted identifier, checked one stretch at a time. */
  lemma AcceptedHead(good: string)
    requires good == "123e4567-e89b-42d3-9456-426614174000"
    ensures |good| == 36 && HexRun(good, 0, 8) && good[8] == '-' && HexRun(good, 9, 13) && good[13] == '-'
  {
  }

  lemma AcceptedMiddle(good: string)
    requires good == "123e4567-e89b-42d3-9456-426614174000"
    ensures |good| == 36 && good[14] == '4' && HexRun(good, 15, 18) && good[18] == '-'
    ensures good[19] in {'8', '9', 'a', 'b', 'A', 'B'} && HexRun(good, 20, 23) && good[23] == '-'
  {
  }

  lemma AcceptedTail(good: string)
    requires good == "123e4567-e89b-42d3-9456-426614174000"
    ensures |good| == 36 && HexRun(good, 24, 36)
  {
  }

  /** `isValidUsername`: between 1 and 50 UTF-16 code units once trimmed. */
  predicate IsValidUsername(u: string)
  {
    var n := Utf16Length(Trim(u));
    0 < n <= 50
  }

  /** A username is valid exactly when it is not blank and its trimmed form is
      at most 50 code units long; for text in the Basic Multilingual Plane the
      bound is on the number of characters. */
  lemma UsernameCharacterization(u: string)
    ensures IsValidUsername(u) <==> !IsBlank(u) && Utf16Length(Trim(u)) <= 50
    ensures (forall i :: 0 <= i < |u| ==> u[i] as int <= 0xFFFF) ==>
              (IsValidUsername(u) <==> 1 <= |Trim(u)| <= 50)
  {
    var t := Trim(u);
    if forall i :: 0 <= i < |u| ==> u[i] as int <= 0xFFFF {
      TrimIsSlice(u);
      Utf16LengthBmp(t);
    }
  }

  /** Every character of `Trim(u)` is a character of `u`. */
  lemma TrimIsSlice(u: string)
    ensures forall i :: 0 <= i < |Trim(u)| ==> Trim(u)[i] in u
  {
    var r := Trim(u);
    var k :| Unpads(u, k, r);
    SliceElements(u, k, r);
  }

  /** Every character of a slice of `s` is a character of `s`. */
  lemma SliceElements(s: string, k: nat, r: string)
    requires k + |r| <= |s| && r == s[k..k + |r|]
    ensures forall i :: 0 <= i < |r| ==> r[i] in s
  {
    forall i | 0 <= i < |r| ensures r[i] in s {
      assert r[i] == s[k + i];
    }
  }

  lemma {:induction false} Utf16LengthBmp(s: string)
    requires forall i :: 0 <= i < |s| ==> s[i] as int <= 0xFFFF
    ensures Utf16Length(s) == |s|
  {
    if s != [] {
      Utf16LengthBmp(s[1..]);
    }
  }

  /** Trimming first does not change the verdict: the user route stores the
      trimmed name, which is itself valid. */
  lemma UsernameTrimInvariant(u: string)
    ensures IsValidUsername(Trim(u)) == IsValidUsername(u)
  {
    TrimIdempotent(u);
  }

  /** A name with no surrounding whitespace, written in the Basic Multilingual
      Plane, is valid exactly when it has at most 50 characters. */
  lemma PlainUsernameLength(u: string)
    requires u != [] && !IsWhitespace(u[0]) && !IsWhitespace(u[|u| - 1])
    requires forall i :: 0 <= i < |u| ==> u[i] as int <= 0xFFFF
    ensures Trim(u) == u
    ensures IsValidUsername(u) <==> |u| <= 50
  {
    TrimUnpadded(u);
    Utf16LengthBmp(u);
  }

  /** The username checks exercised by the project's unit tests: `name` is
      the accepted name and `spaces` the whitespace-only one. */
  lemma UsernameExamples(name: string, spaces: string)
    requires name == "player123" && spaces == "   "
    ensures IsValidUsername(name)
    ensures !IsValidUsername("")
    ensures !IsValidUsername(spaces)
  {
    PlainUsernameLength(name);
    assert IsBlank(spaces);
  }
}
