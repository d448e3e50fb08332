# Railway-oriented validation: a Dafny model

This project models the validating factories of the ROP demonstration
program. A `Result<T>` is either `Success(value)` or `Failure(error)`. A
factory starts a pipeline with `Create`. Each `Ensure` step keeps a success
whose payload satisfies a rule, and turns one that does not into a failure
carrying the rule's message. A failure passes through every later step
untouched, so the first broken rule is the one reported. `Map` hands a
success's payload to the next step, which builds the final value.

Two factories are built this way:

- `Email.Create(address)` checks, in this order, that the address is not
  blank, that it is at most 100 UTF-16 code units long, and that it matches
  `^[^@\s]+@[^@\s]+\.[^@\s]+$`. On success it wraps the address unchanged.
- `User.Create(name, email, id)` checks, in this order, that the name is not
  empty and that it is at most 20 UTF-16 code units long. On success it
  builds a user with exactly the given id, name and e-mail address.

Modules:

- `Results` (results.dfy): the result type, its combinators, and laws about
  chains of `Ensure` steps (short-circuit, first failure wins).
- `Text` (text.dfy): the .NET string facts the rules use: whitespace,
  `IsNullOrEmpty`, `IsNullOrWhiteSpace` and `Length` counted in UTF-16 code
  units.
- `DomainErrors` (domain_errors.dfy): the five fixed messages.
- `Email` (email.dfy): the e-mail value, the shape rule and the factory.
- `EmailShape` (email_shape.dfy): the shape rule restated as structural
  facts, and the trailing-newline behaviour of its `$` anchor.
- `User` (user.dfy): the user value and its factory.

Modelling decisions:

- C# `string.Length` counts UTF-16 code units, while a Dafny string is a
  sequence of Unicode scalar values. `Text.Utf16Length` models `Length`: a
  character outside the Basic Multilingual Plane counts twice.
- `char.IsWhiteSpace` and the regular-expression class `\s` match the same
  characters. `Text.IsWs` lists them once and both rules use it.
- The regular expression is replaced by `Email.MatchesWhole`, which looks
  for the '@' and '.' that split the address into three runs. `Email.IsValidEmail`
  adds what the `$` anchor also accepts: the same shape followed by one final
  '\n'.
- Whitespace-only text counts as empty only for addresses
  (`string.IsNullOrWhiteSpace`, ROP/Program.cs:63). The user-name rule is
  `string.IsNullOrEmpty` (ROP/Program.cs:36), so a whitespace-only name passes
  it. The model follows the code.
- In the model, reading `value` of a failure or `error` of a success is ruled
  out by the datatype destructors, whose precondition is the matching
  constructor.
- Each factory's rules are also listed as data (`Email.Rules`, `User.Rules`),
  and `Email.CreateIsRuleChain` and `User.CreateIsRuleChain` prove that the
  factory is the generic `Results.EnsureAll` chain of those rules. The chain
  laws of `Results` then give each factory's error order. For `Map` the
  short-circuit holds one step at a time, through `Map`'s own contract.
- The program's `Email` and `User` constructors are private
  (ROP/Program.cs:26, 55), so the factories are the only way to build them.
  The Dafny datatypes `Email.Email` and `User.User` have public constructors
  and do not enforce that.

## Model

| member | source | states |
|---|---|---|
| `Results.Result.Create` | ROP/Program.cs:61 | A pipeline starts as a success holding the given value. |
| `Results.Result.Ensure` | ROP/Program.cs:62-70 | The result is a success iff the input was a success whose payload satisfies the rule. A kept success is the same value. A failure passes through unchanged. A rejected success reports the rule's message. |
| `Results.Result.Map` | ROP/Program.cs:41-44 | A success returns exactly what the continuation returns for its payload. A failure keeps the same error and the continuation is not used. |
| `Results.EnsureAll` | ROP/Program.cs:60-71 | Short-circuit law: any chain of `Ensure` steps applied to `Failure(e)` yields `Failure(e)`. Any success the chain yields is its input unchanged. |
| `Results.ChainSucceedsIff` | ROP/Program.cs:60-71 | A chain started on `Success(v)` succeeds iff every rule holds of `v`, and then yields `Success(v)`. |
| `Results.FirstFailureWins` | ROP/Program.cs:62-70 | If rule `k` is the first rule that rejects `v`, the chain yields exactly rule `k`'s message. |
| `Text.Utf16Length` | ROP/Program.cs:66 | `Length` counts UTF-16 code units: at least the character count, at most twice it, and equal to it iff every character is in the Basic Multilingual Plane. |
| `Email.Email` | ROP/Program.cs:50-58 | The e-mail value: exactly one field, the address string. |
| `User.User` | ROP/Program.cs:18-31 | The user value: an id, a name and an e-mail value. |
| `Email.MatchesWhole` | ROP/Program.cs:74 | The pattern `[^@\s]+@[^@\s]+\.[^@\s]+` over the whole address: an '@' and a later '.' split it into three non-empty runs of characters that are neither '@' nor whitespace. A match is at least five characters long. |
| `Email.IsValidEmail` | ROP/Program.cs:73-74 | The check as written: a whole-string match, or a whole-string match followed by one final '\n' (the `$` anchor). Every whole-string match is accepted, and an accepted address is at least five characters long. |
| `Email.CreateIsRuleChain` | ROP/Program.cs:60-71 | The e-mail factory equals the generic `Ensure` chain of its three rules followed by wrapping the address. |
| `Email.Create` | ROP/Program.cs:60-71 | Succeeds iff the address is not blank, is at most 100 code units long and passes the shape check. On success the address is stored unchanged. |
| `Email.ValidIsNotBlank` | ROP/Program.cs:62-74 | An address that passes the shape check is never blank. |
| `Email.CreateErrorPriority` | ROP/Program.cs:62-70 | A blank address yields "Email address can not be empty.". A non-blank over-long one yields "Email address is too long." whatever its format. Only otherwise does a bad shape yield "Invalid email format.". |
| `Email.LengthBoundInclusive` | ROP/Program.cs:65-67 | A well-shaped address of exactly 100 code units is accepted unchanged. A non-blank one of 101 fails with the too-long message. |
| `Email.HundredCharacterAddressAccepted` | ROP/Program.cs:60-74 | A concrete well-shaped 100-character address is accepted. |
| `Email.HundredOneCharacterAddressTooLong` | ROP/Program.cs:65-67 | A concrete well-shaped 101-character address fails with "Email address is too long.". |
| `Email.SampleAddressAccepted` | ROP/Program.cs:8 | "user@email.com" is accepted unchanged. |
| `Email.AddressWithoutAtRejected` | ROP/Program.cs:68-70 | "not-an-email" fails with "Invalid email format.". |
| `EmailShape.MatchesWholeIffStructure` | ROP/Program.cs:73-74 | The whole-string pattern holds iff the address has exactly one '@', no whitespace, a non-empty part before the '@', and a '.' after the '@' that is neither the first nor the last character of that part. |
| `EmailShape.IsValidEmailIff` | ROP/Program.cs:73-74 | The source's check accepts exactly the well-structured addresses and those followed by one '\n'. |
| `EmailShape.TrailingNewlineAccepted` | ROP/Program.cs:74 | As written, "a@b.c\n" is accepted and stored with its trailing whitespace, although it lacks the structure above. |
| `EmailShape.CreateWhole` | ROP/Program.cs:60-74 | With the pattern anchored at the very end, the factory succeeds iff the address is not blank, within 100 code units and well structured. An accepted address then holds no whitespace. |
| `EmailShape.CreateDiffersOnlyOnTrailingNewline` | ROP/Program.cs:60-74 | The two factories disagree exactly on addresses within the bound that are a well-shaped address followed by one '\n'. |
| `User.Create` | ROP/Program.cs:33-44 | Succeeds iff the name is non-empty and at most 20 code units long. On success the user has exactly the given id, name and e-mail address. |
| `User.CreateIsRuleChain` | ROP/Program.cs:33-44 | The user factory equals the generic `Ensure` chain of its two rules followed by building the user. |
| `User.CreateErrorPriority` | ROP/Program.cs:35-40 | An empty name yields exactly "User name can not be empty". A non-empty over-long name yields "User name must be less than or equal to 20 characters.". In both cases no user is built. |
| `User.WhitespaceNameAccepted` | ROP/Program.cs:36 | A non-empty whitespace-only name of at most 20 characters is accepted, because the rule is `IsNullOrEmpty`. |
| `User.NameLengthBoundInclusive` | ROP/Program.cs:38-40 | For names of single-code-unit characters, lengths 1 to 20 succeed and lengths of 21 or more fail with the too-long message. |
| `User.SampleUserCreated` | ROP/Program.cs:8 | "Mohamed Ehab" with the address "user@email.com" yields that user. |
| `DomainErrors.MessagesDistinct` | ROP/Program.cs:77-91 | The messages are "Email address can not be empty.", "Email address is too long.", "Invalid email format.", "User name can not be empty" and "User name must be less than or equal to 20 characters.". Each factory's messages differ pairwise, so a message names the broken rule. |

## Findings

| source | as written | input that shows it | evidently intended | confidence | as-written member | corrected member |
|---|---|---|---|---|---|---|
| ROP/Program.cs:74 | The pattern ends in `$` without the multi-line option. .NET's `$` also matches just before a final '\n', so an address ending in a newline passes the format check. | "a@b.c\n" is accepted and stored with the newline. | The whole address matches the pattern, so an accepted address holds no whitespace. Anchoring with `\z` gives this. | medium; not executed | `EmailShape.TrailingNewlineAccepted` | `EmailShape.CreateWhole` |

`Email.Create` keeps the source's behaviour. `EmailShape.CreateDiffersOnlyOnTrailingNewline`
shows that the two factories differ on exactly these inputs.

## Left out

- `Program.Main`: console output and the key press are I/O. Its unguarded `.Value` read is a demonstration.
- `User.ToString`: it depends on .NET's Guid formatting and string interpolation.
- `Guid.NewGuid()`: a fresh identifier is nondeterministic. `User.Create` takes the id as the parameter `id`.
- Null strings: a Dafny string cannot be null, so the null branches of `IsNullOrEmpty` and `IsNullOrWhiteSpace` do not arise.
- The .NET regular-expression engine and its match timeout: the pattern is replaced by `Email.MatchesWhole` and `Email.IsValidEmail`.
- The error type is the source's plain message string. It is not generalised to structured error codes.
- `User.NameLengthBoundInclusive`: the concrete bounds are stated only for names whose characters are each one UTF-16 code unit. `User.Create` states the general rule in code units.
- `Result<T>`: its definition is not in Program.cs. `Create`, `Ensure` and `Map` are inferred from their call sites (lines 34-44, 61-71). How its `Value` and `Error` accessors behave in the wrong state is not known from the program; the model rules those reads out by precondition.
- Unpaired UTF-16 surrogates: a .NET string may hold them, a Dafny string cannot. The rules would treat such a unit like any other non-whitespace character of one code unit, so no accepted or rejected input changes, but such strings are outside the model.
