/** A user built from a name and an already validated e-mail address. The
    factory checks, in this order, that the name is not empty and that it is
    at most 20 UTF-16 code units long; only then is a user constructed. */
module User {
  import opened Results
  import opened Text
  import Email
  import DomainErrors

  /** Longest accepted name, in UTF-16 code units, bound included. */
  const MaxNameLength: nat := 20

  /** A 128-bit globally unique identifier. Generating a fresh one is outside
      the model: the factory receives it as `id`. */
  datatype Guid = Guid(bits: bv128)

  datatype User = User(id: Guid, name: string, email: Email.Email)

  /** The pipeline's payload: the name and the e-mail address. */
  type Draft = (string, Email.Email)

  /** The emptiness rule, `!string.IsNullOrEmpty` of the payload's name. */
  predicate NameNotEmpty(user: Draft)
  {
    !IsNullOrEmpty(user.0)
  }

  /** The length rule. It reads the factory's `name` argument rather than
      the payload, which holds the same string. */
  function NameFits(name: string): Draft -> bool
  {
    (user: Draft) => Utf16Length(name) <= MaxNameLength
  }

  /** The continuation that builds the user from the payload. */
  function Build(id: Guid): Draft -> Result<User>
  {
    (user: Draft) => Success(User(id, user.0, user.1))
  }

  /** The two rules of `Create`, in the order the factory applies them. */
  function Rules(name: string): seq<Rule<Draft>>
  {
    [ Rule(NameNotEmpty, DomainErrors.UserEmpty),
      Rule(NameFits(name), DomainErrors.UserTooLong) ]
  }

  /** The factory. The emptiness rule is `string.IsNullOrEmpty`, so a
      whitespace-only name passes it. On success the user carries the given
      id, name and e-mail address unchanged. */
  function Create(name: string, email: Email.Email, id: Guid): (r: Result<User>)
    ensures r.Success? <==> !IsNullOrEmpty(name) && Utf16Length(name) <= MaxNameLength
    ensures r.Success? ==> r.value.id == id && r.value.name == name && r.value.email == email
  {
    Result<Draft>.Create((name, email))
      .Ensure(NameNotEmpty, DomainErrors.UserEmpty)
      .Ensure(NameFits(name), DomainErrors.UserTooLong)
      .Map(Build(id))
  }

  /** `Create` is the generic chain of its two rules followed by building the
      user, so the chain laws of `Results` apply to it. */
  lemma CreateIsRuleChain(name: string, email: Email.Email, id: Guid)
    ensures Create(name, email, id) == EnsureAll(Result.Create((name, email)), Rules(name)).Map(Build(id))
  {
    var rs := Rules(name);
    var r0 := Result<Draft>.Create((name, email));
    var r1 := r0.Ensure(rs[0].holds, rs[0].message);
    var r2 := r1.Ensure(rs[1].holds, rs[1].message);
    assert rs[1..][1..] == [];
    assert EnsureAll(r2, rs[1..][1..]) == r2;
    assert EnsureAll(r0, rs) == EnsureAll(r1, rs[1..]);
  }

  /** The rules are checked in order: an empty name is reported as empty, a
      non-empty one that is too long as too long; in both cases the
      continuation is skipped and no user is built. Follows from the
      first-failure-wins law applied to the factory's rule chain. */
  lemma CreateErrorPriority(name: string, email: Email.Email, id: Guid)
    ensures name == [] ==> Create(name, email, id) == Failure(DomainErrors.UserEmpty)
    ensures name != [] && Utf16Length(name) > MaxNameLength ==>
      Create(name, email, id) == Failure(DomainErrors.UserTooLong)
  {
    CreateIsRuleChain(name, email, id);
    var rs := Rules(name);
    if name == [] {
      FirstFailureWins((name, email), rs, 0);
    } else if Utf16Length(name) > MaxNameLength {
      FirstFailureWins((name, email), rs, 1);
    }
  }

  /** The emptiness rule is not whitespace-aware: a non-empty name made only
      of whitespace, 20 characters long at most, is accepted. */
  lemma WhitespaceNameAccepted(name: string, email: Email.Email, id: Guid)
    requires 0 < |name| <= MaxNameLength
    requires IsNullOrWhiteSpace(name)
    ensures Create(name, email, id) == Success(User(id, name, email))
  {
    WhitespaceLengthIsCharCount(name);
  }

  /** Both ends of the inclusive length bound, for names whose characters are
      each one code unit. */
  lemma NameLengthBoundInclusive(name: string, email: Email.Email, id: Guid)
    requires forall k :: 0 <= k < |name| ==> InBmp(name[k])
    ensures 0 < |name| <= MaxNameLength ==> Create(name, email, id) == Success(User(id, name, email))
    ensures |name| > MaxNameLength ==> Create(name, email, id) == Failure(DomainErrors.UserTooLong)
  {
  }

  /** The sample user "Mohamed Ehab" with "user@email.com" is created. */
  lemma SampleUserCreated(id: Guid)
    ensures var e := Email.Email("user@email.com");
      Create("Mohamed Ehab", e, id) == Success(User(id, "Mohamed Ehab", e))
  {
    var name := "Mohamed Ehab";
    assert forall k :: 0 <= k < |name| ==> InBmp(name[k]);
    NameLengthBoundInclusive(name, Email.Email("user@email.com"), id);
  }
}
