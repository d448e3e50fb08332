/** An e-mail address value. In the program its constructor is private, so
    `Create` is the only factory; the Dafny datatype's constructor is public
    and does not enforce that. `Create` checks, in this order, that the address is not blank, that it is at most
    100 UTF-16 code units long, and that it has the minimal shape
    `^[^@\s]+@[^@\s]+\.[^@\s]+$`. */
module Email {
  import opened Results
  import opened Text
  import DomainErrors

  /** Longest accepted address, in UTF-16 code units, bound included. */
  const MaxLength: nat := 100

  datatype Email = Email(address: string)

  /** The character class `[^@\s]`. */
  predicate IsAddressChar(c: char)
  {
    c != '@' && !IsWs(c)
  }

  /** The pattern `[^@\s]+`: a non-empty run of address characters. */
  predicate IsAddressRun(s: string)
  {
    |s| > 0 && forall k :: 0 <= k < |s| ==> IsAddressChar(s[k])
  }

  /** `s`, as a whole, is `[^@\s]+@[^@\s]+\.[^@\s]+`: some '@' at `i` and some
      '.' at `j` split it into three non-empty runs of address characters. */
  predicate MatchesWhole(s: string)
    ensures MatchesWhole(s) ==> |s| >= 5
  {
    exists i, j | 0 <= i < j < |s| ::
      s[i] == '@' && s[j] == '.' &&
      IsAddressRun(s[..i]) && IsAddressRun(s[i + 1..j]) && IsAddressRun(s[j + 1..])
  }

  /** The source's check `Regex.IsMatch(s, "^[^@\s]+@[^@\s]+\.[^@\s]+$")`.
      Without the multi-line option the anchor `$` matches at the very end
      and also just before a final '\n', so an otherwise well-shaped address
      followed by one newline is accepted too. */
  predicate IsValidEmail(s: string)
    ensures IsValidEmail(s) ==> |s| >= 5
    ensures MatchesWhole(s) ==> IsValidEmail(s)
  {
    || MatchesWhole(s)
    || (|s| > 0 && s[|s| - 1] == '\n' && MatchesWhole(s[..|s| - 1]))
  }

  predicate NotBlank(s: string)
  {
    !IsNullOrWhiteSpace(s)
  }

  predicate WithinMaxLength(s: string)
  {
    Utf16Length(s) <= MaxLength
  }

  function Wrap(s: string): Result<Email>
  {
    Success(Email(s))
  }

  /** The factory: three `Ensure` steps in the source's order, then the
      address is wrapped unchanged. It succeeds exactly when all three rules
      hold, and then carries the given address. */
  function Create(address: string): (r: Result<Email>)
    ensures r.Success? <==>
      !IsNullOrWhiteSpace(address) && Utf16Length(address) <= MaxLength && IsValidEmail(address)
    ensures r.Success? ==> r.value.address == address
  {
    Result.Create(address)
      .Ensure(NotBlank, DomainErrors.EmailEmpty)
      .Ensure(WithinMaxLength, DomainErrors.EmailTooLong)
      .Ensure(IsValidEmail, DomainErrors.EmailInvalidFormat)
      .Map(Wrap)
  }

  /** The three rules of `Create`, in the order the factory applies them. */
  function Rules(): seq<Rule<string>>
  {
    [ Rule(NotBlank, DomainErrors.EmailEmpty),
      Rule(WithinMaxLength, DomainErrors.EmailTooLong),
      Rule(IsValidEmail, DomainErrors.EmailInvalidFormat) ]
  }

  /** `Create` is the generic chain of its three rules followed by wrapping,
      so the chain laws of `Results` apply to it. */
  lemma CreateIsRuleChain(a: string)
    ensures Create(a) == EnsureAll(Result.Create(a), Rules()).Map(Wrap)
  {
    var rs := Rules();
    var r0 := Result.Create(a);
    var r1 := r0.Ensure(rs[0].holds, rs[0].message);
    var r2 := r1.Ensure(rs[1].holds, rs[1].message);
    var r3 := r2.Ensure(rs[2].holds, rs[2].message);
    assert rs[1..][1..][1..] == [];
    assert EnsureAll(r3, rs[1..][1..][1..]) == r3;
    assert EnsureAll(r0, rs) == EnsureAll(r1, rs[1..]) == EnsureAll(r2, rs[1..][1..]);
  }

  /** An address of the accepted shape always holds an '@', so it is never
      blank. */
  lemma ValidIsNotBlank(s: string)
    requires IsValidEmail(s)
    ensures NotBlank(s)
  {
    var w := if MatchesWhole(s) then s else s[..|s| - 1];
    assert MatchesWhole(w);
    var i, j :| 0 <= i < j < |w| && w[i] == '@' && w[j] == '.' &&
      IsAddressRun(w[..i]) && IsAddressRun(w[i + 1..j]) && IsAddressRun(w[j + 1..]);
    assert s[i] == '@' && !IsWs(s[i]);
  }

  /** The rules are checked in order and the first one broken is reported: a
      blank address is "empty" whatever else is wrong with it; a non-blank one
      that is too long is "too long" even if its format is also bad; only an
      address passing both is reported for its format. Follows from the
      first-failure-wins law applied to the factory's rule chain. */
  lemma CreateErrorPriority(a: string)
    ensures IsNullOrWhiteSpace(a) ==> Create(a) == Failure(DomainErrors.EmailEmpty)
    ensures NotBlank(a) && Utf16Length(a) > MaxLength ==>
      Create(a) == Failure(DomainErrors.EmailTooLong)
    ensures NotBlank(a) && Utf16Length(a) <= MaxLength && !IsValidEmail(a) ==>
      Create(a) == Failure(DomainErrors.EmailInvalidFormat)
  {
    CreateIsRuleChain(a);
    var rs := Rules();
    if IsNullOrWhiteSpace(a) {
      FirstFailureWins(a, rs, 0);
    } else if Utf16Length(a) > MaxLength {
      FirstFailureWins(a, rs, 1);
    } else if !IsValidEmail(a) {
      FirstFailureWins(a, rs, 2);
    }
  }

  /** The length bound is inclusive: a well-shaped address of exactly 100 code
      units is accepted unchanged, and a non-blank one of 101 is too long. */
  lemma LengthBoundInclusive(a: string)
    ensures Utf16Length(a) == MaxLength && IsValidEmail(a) ==> Create(a) == Success(Email(a))
    ensures Utf16Length(a) == MaxLength + 1 && NotBlank(a) ==>
      Create(a) == Failure(DomainErrors.EmailTooLong)
  {
    if IsValidEmail(a) {
      ValidIsNotBlank(a);
    }
  }

  /** `local + "@" + host + "." + top` with three plain runs matches the shape. */
  lemma SplitMatches(local: string, host: string, top: string)
    requires IsAddressRun(local) && IsAddressRun(host) && IsAddressRun(top)
    ensures MatchesWhole(local + "@" + host + "." + top)
  {
    var s := local + "@" + host + "." + top;
    var i, j := |local|, |local| + 1 + |host|;
    assert s[..i] == local && s[i + 1..j] == host && s[j + 1..] == top;
    assert s[i] == '@' && s[j] == '.';
  }

  lemma AsciiRun(s: string)
    requires |s| > 0
    requires forall k :: 0 <= k < |s| ==> 'a' <= s[k] <= 'z'
    ensures IsAddressRun(s) && NotBlank(s)
    ensures forall k :: 0 <= k < |s| ==> InBmp(s[k])
  {
    assert !IsWs(s[0]);
  }

  /** A well-shaped address of exactly 100 characters is accepted. */
  lemma HundredCharacterAddressAccepted()
    ensures var a := seq(96, _ => 'x') + "@b.c";
      |a| == 100 && Create(a) == Success(Email(a))
  {
    var local := seq(96, _ => 'x');
    AsciiRun(local);
    AsciiRun("b");
    AsciiRun("c");
    SplitMatches(local, "b", "c");
    var a := local + "@" + "b" + "." + "c";
    assert a == seq(96, _ => 'x') + "@b.c";
    assert forall k :: 0 <= k < |a| ==> InBmp(a[k]);
    LengthBoundInclusive(a);
  }

  /** A non-blank address of 101 characters is too long, although its shape
      is fine. */
  lemma HundredOneCharacterAddressTooLong()
    ensures var a := seq(97, _ => 'x') + "@b.c";
      |a| == 101 && IsValidEmail(a) && Create(a) == Failure(DomainErrors.EmailTooLong)
  {
    var local := seq(97, _ => 'x');
    AsciiRun(local);
    AsciiRun("b");
    AsciiRun("c");
    SplitMatches(local, "b", "c");
    var a := local + "@" + "b" + "." + "c";
    assert a == seq(97, _ => 'x') + "@b.c";
    assert forall k :: 0 <= k < |a| ==> InBmp(a[k]);
    assert Utf16Length(a) == MaxLength + 1;
    ValidIsNotBlank(a);
    LengthBoundInclusive(a);
  }

  /** "user@email.com" is accepted unchanged. */
  lemma SampleAddressAccepted()
    ensures Create("user@email.com") == Success(Email("user@email.com"))
  {
    var s := "user" + "@" + "email" + "." + "com";
    assert s == "user@email.com";
    AsciiRun("user");
    AsciiRun("email");
    AsciiRun("com");
    SplitMatches("user", "email", "com");
    assert !IsWs(s[0]);
    assert Utf16Length(s) <= 2 * |s| <= MaxLength;
    var r := Create(s);
    assert r.Success? && r.value.address == s;
  }

  /** Without an '@' there is nothing for the pattern to split on. */
  lemma NoAtNoMatch(s: string)
    requires forall k :: 0 <= k < |s| ==> s[k] != '@'
    ensures !MatchesWhole(s)
  {
  }

  /** "not-an-email" has no '@', so it fails on its format. */
  lemma AddressWithoutAtRejected()
    ensures Create("not-an-email") == Failure(DomainErrors.EmailInvalidFormat)
  {
    var s := "not-an-email";
    assert forall k :: 0 <= k < |s| ==> s[k] != '@';
    NoAtNoMatch(s);
    NoAtNoMatch(s[..|s| - 1]);
    assert !IsValidEmail(s);
    assert NotBlank(s) by {
      assert !IsWs(s[0]);
    }
    assert Utf16Length(s) <= 2 * |s| <= MaxLength;
    CreateErrorPriority(s);
  }
}
