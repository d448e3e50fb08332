/** The regular expression of the e-mail check restated as plain structural
    facts, the trailing-newline acceptance of its `$` anchor, and a
    whole-string variant of the factory. */
module EmailShape {
  import opened Text
  import opened Results
  import opened Email
  import DomainErrors

  /** The domain part has a '.' that is neither its first nor its last character. */
  predicate HasInnerDot(d: string)
  {
    exists j | 0 < j < |d| - 1 :: d[j] == '.'
  }

  /** Plain structural facts about an address: exactly one '@', no whitespace,
      something before the '@', and an inner '.' after it. */
  predicate HasEmailStructure(s: string)
  {
    && multiset(s)['@'] == 1
    && (forall k :: 0 <= k < |s| ==> !IsWs(s[k]))
    && exists i | 0 < i < |s| :: s[i] == '@' && HasInnerDot(s[i + 1..])
  }

  lemma RunHasNoAt(r: string)
    requires IsAddressRun(r)
    ensures multiset(r)['@'] == 0
  {
    assert '@' !in r by {
      forall k | 0 <= k < |r| ensures r[k] != '@' {
        assert IsAddressChar(r[k]);
      }
    }
  }

  /** Two distinct positions holding `c` make `c` occur at least twice. */
  lemma TwoPositionsCountTwice(s: string, a: nat, b: nat, c: char)
    requires a < b < |s|
    requires s[a] == c && s[b] == c
    ensures multiset(s)[c] >= 2
  {
    assert s == s[..a] + [s[a]] + s[a + 1..b] + [s[b]] + s[b + 1..];
    assert multiset(s) == multiset(s[..a]) + multiset([c]) + multiset(s[a + 1..b])
      + multiset([c]) + multiset(s[b + 1..]);
  }

  /** With exactly one '@' at `i`, no other position holds an '@'. */
  lemma OnlyOneAt(s: string, i: nat, k: nat)
    requires multiset(s)['@'] == 1
    requires i < |s| && s[i] == '@'
    requires k < |s| && k != i
    ensures s[k] != '@'
  {
    if s[k] == '@' {
      if k < i {
        TwoPositionsCountTwice(s, k, i, '@');
      } else {
        TwoPositionsCountTwice(s, i, k, '@');
      }
      assert false;
    }
  }

  /** A slice of an address whose characters are neither '@' nor whitespace
      is an address run when it is non-empty. */
  lemma SliceIsRun(s: string, i: nat, lo: nat, hi: nat)
    requires multiset(s)['@'] == 1
    requires i < |s| && s[i] == '@'
    requires forall k :: 0 <= k < |s| ==> !IsWs(s[k])
    requires lo < hi <= |s| && (i < lo || hi <= i)
    ensures IsAddressRun(s[lo..hi])
  {
    forall k | 0 <= k < hi - lo ensures IsAddressChar(s[lo..hi][k]) {
      assert s[lo..hi][k] == s[lo + k];
      OnlyOneAt(s, i, lo + k);
    }
  }

  /** A split that the pattern accepts yields the structural facts. */
  lemma SplitHasStructure(s: string, i: nat, j: nat)
    requires i < j < |s| && s[i] == '@' && s[j] == '.'
    requires IsAddressRun(s[..i]) && IsAddressRun(s[i + 1..j]) && IsAddressRun(s[j + 1..])
    ensures HasEmailStructure(s)
  {
    assert s == s[..i] + [s[i]] + s[i + 1..j] + [s[j]] + s[j + 1..];
    RunHasNoAt(s[..i]);
    RunHasNoAt(s[i + 1..j]);
    RunHasNoAt(s[j + 1..]);
    assert multiset(s) == multiset(s[..i]) + multiset([s[i]]) + multiset(s[i + 1..j])
      + multiset([s[j]]) + multiset(s[j + 1..]);
    forall k | 0 <= k < |s| ensures !IsWs(s[k]) {
      if k < i {
        assert s[k] == s[..i][k];
      } else if i < k < j {
        assert s[k] == s[i + 1..j][k - i - 1];
      } else if j < k {
        assert s[k] == s[j + 1..][k - j - 1];
      }
    }
    assert s[i + 1..][j - i - 1] == '.';
  }

  /** The structural facts give a split that the pattern accepts. */
  lemma StructureHasSplit(s: string)
    requires HasEmailStructure(s)
    ensures MatchesWhole(s)
  {
    var i :| 0 < i < |s| && s[i] == '@' && HasInnerDot(s[i + 1..]);
    var d :| 0 < d < |s[i + 1..]| - 1 && s[i + 1..][d] == '.';
    var j := i + 1 + d;
    assert s[j] == '.';
    SliceIsRun(s, i, 0, i);
    SliceIsRun(s, i, i + 1, j);
    SliceIsRun(s, i, j + 1, |s|);
    assert s[..i] == s[0..i] && s[j + 1..] == s[j + 1..|s|];
  }

  /** The whole-string shape rule says no more and no less than the plain
      structural facts. */
  lemma MatchesWholeIffStructure(s: string)
    ensures MatchesWhole(s) <==> HasEmailStructure(s)
  {
    if MatchesWhole(s) {
      var i, j :| 0 <= i < j < |s| &&
        s[i] == '@' && s[j] == '.' &&
        IsAddressRun(s[..i]) && IsAddressRun(s[i + 1..j]) && IsAddressRun(s[j + 1..]);
      SplitHasStructure(s, i, j);
    }
    if HasEmailStructure(s) {
      StructureHasSplit(s);
    }
  }

  /** What the source's check accepts: a well-structured address, possibly
      followed by one '\n'. */
  lemma IsValidEmailIff(s: string)
    ensures IsValidEmail(s) <==>
      || HasEmailStructure(s)
      || (|s| > 0 && s[|s| - 1] == '\n' && HasEmailStructure(s[..|s| - 1]))
  {
    MatchesWholeIffStructure(s);
    if |s| > 0 {
      MatchesWholeIffStructure(s[..|s| - 1]);
    }
  }

  /** As written, the check lets a newline through: "a@b.c\n" is accepted
      and stored with its trailing whitespace, although the pattern's
      character classes exclude whitespace. */
  lemma TrailingNewlineAccepted()
    ensures var a := "a@b.c\n";
      Create(a) == Success(Email(a)) && IsWs(a[|a| - 1]) && !HasEmailStructure(a)
  {
    var a := "a@b.c\n";
    var w := "a" + "@" + "b" + "." + "c";
    assert a[..|a| - 1] == w;
    AsciiRun("a");
    AsciiRun("b");
    AsciiRun("c");
    SplitMatches("a", "b", "c");
    assert IsValidEmail(a);
    assert IsWs(a[5]);
    assert !IsWs(a[0]);
    assert Utf16Length(a) <= 2 * |a| <= MaxLength;
    var r := Create(a);
    assert r.Success? && r.value.address == a;
  }

  /** The e-mail factory with the shape rule anchored at the very end of the
      address (the evidently intended reading of the pattern). It succeeds
      exactly when the address is not blank, within the length bound and
      well structured, and an accepted address never holds whitespace. */
  function CreateWhole(address: string): (r: Result<Email>)
    ensures r.Success? <==>
      NotBlank(address) && Utf16Length(address) <= MaxLength && HasEmailStructure(address)
    ensures r.Success? ==> r.value.address == address
    ensures r.Success? ==> forall k :: 0 <= k < |r.value.address| ==> !IsWs(r.value.address[k])
  {
    MatchesWholeIffStructure(address);
    Result.Create(address)
      .Ensure(NotBlank, DomainErrors.EmailEmpty)
      .Ensure(WithinMaxLength, DomainErrors.EmailTooLong)
      .Ensure(MatchesWhole, DomainErrors.EmailInvalidFormat)
      .Map(Wrap)
  }

  /** The factory as written and the whole-string one disagree exactly on
      addresses within the length bound that are a well-shaped address
      followed by one '\n'. */
  lemma CreateDiffersOnlyOnTrailingNewline(a: string)
    ensures Create(a) != CreateWhole(a) <==>
      && Utf16Length(a) <= MaxLength
      && |a| > 0 && a[|a| - 1] == '\n'
      && MatchesWhole(a[..|a| - 1])
  {
    MatchesWholeIffStructure(a);
    if |a| > 0 && a[|a| - 1] == '\n' {
      assert !HasEmailStructure(a) by {
        assert IsWs(a[|a| - 1]);
      }
      if MatchesWhole(a[..|a| - 1]) {
        ValidIsNotBlank(a);
      }
    }
  }
}
