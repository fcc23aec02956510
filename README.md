# RegistrationResult

A model of `RegistrationResult`. This immutable value object reports the outcome of a
user-registration attempt. It holds three fields: a success flag, a status tag and a free-text
message. The class provides:

- two constructors, one of which defaults the message to `""`;
- an `equals` that rejects `null` and objects of another runtime class, short-circuits on the same
  object, and otherwise compares the three fields in order through an equality builder;
- a `hashCode` built by a hash builder seeded with 15 and multiplier 33 over the same three fields;
- a `createEmpty` sentinel `(false, EMPTY, "")` and an `isEmpty` predicate that compares the object
  structurally with a freshly created sentinel.

Files:

- `java_int.dfy` (module `JavaInt`): Java's 32-bit `int` and its wrap-around.
- `builders.dfy` (module `Builders`): the equality builder and the hash builder chained by `equals`
  and `hashCode`.
- `registration_result.dfy` (module `DomainObjects`): the object, its operations and the lemmas
  about them.

The class is pure (every field is final), so the model uses datatypes, functions and lemmas.
Object identity matters only to the `obj == this` short-circuit in `equals`. It is modelled by
`Ref(address, obj)`: a reference is an address together with the immutable fields it points to.
The argument of `equals` is `Obj`, which is `Null`, `OtherClass(..)` (an object of any other
runtime class, even one carrying the same three values) or `Instance(ref)`. Since fields are final,
one address always denotes one value. The lemmas that compare two references take this as the
requirement `SameAddressSameFields`. `isEmpty` allocates a new sentinel, so it receives the
sentinel's address, which must differ from `this`'s address.

The enum's `hashCode` (identity-based in Java) and `String.hashCode` are code outside this file.
`HashCode` therefore takes them as function parameters `statusHash` and `stringHash` returning Java
`int`s. The hash builder itself is modelled exactly: start at 15, and at every append set
`total := total * 33 + h` with Java `int` wrap-around. A `boolean` contributes 0 for true and 1 for
false.

## Model

| member | source | states |
|---|---|---|
| DomainObjects.New | src/main/java/com/coveros/training/domainobjects/RegistrationResult.java:14-18 | reading the fields back yields exactly the three constructor arguments |
| DomainObjects.NewWithoutMessage | src/main/java/com/coveros/training/domainobjects/RegistrationResult.java:20-22 | the same result as the full constructor with message `""`, so the message is empty |
| DomainObjects.Equals | src/main/java/com/coveros/training/domainobjects/RegistrationResult.java:24-36 | false for `null`; false for an object of another class whatever it contains; true for the same object; for another `RegistrationResult`, true iff success flag, status and message are each equal |
| DomainObjects.IdentityShortCircuitIsHarmless | src/main/java/com/coveros/training/domainobjects/RegistrationResult.java:26 | when one address always holds one value, `equals` equals the plain field-wise comparison: the identity short-circuit never changes the answer |
| DomainObjects.EqualsIsValueEquality | src/main/java/com/coveros/training/domainobjects/RegistrationResult.java:30-35 | two `RegistrationResult`s are `equals` iff their field values are identical |
| DomainObjects.EqualsIsReflexive | src/main/java/com/coveros/training/domainobjects/RegistrationResult.java:24-36 | every object equals itself |
| DomainObjects.EqualsIsSymmetric | src/main/java/com/coveros/training/domainobjects/RegistrationResult.java:24-36 | `a.equals(b) == b.equals(a)` |
| DomainObjects.EqualsIsTransitive | src/main/java/com/coveros/training/domainobjects/RegistrationResult.java:24-36 | `a.equals(b)` and `b.equals(c)` give `a.equals(c)` |
| Builders.AppendAllIsConjunction | src/main/java/com/coveros/training/domainobjects/RegistrationResult.java:31-35 | an equality builder chain ends true iff it started true and every appended pair was equal, so the order of the appends never changes the verdict |
| Builders.FailedBuilderStaysFailed | src/main/java/com/coveros/training/domainobjects/RegistrationResult.java:31-35 | after the first unequal pair, later appends leave the builder unchanged (short-circuit) |
| Builders.HashAllIsWrappedPolynomial | src/main/java/com/coveros/training/domainobjects/RegistrationResult.java:41-45 | a hash builder chain with Java `int` wrap at every step gives the exact polynomial `total*c^n + h0*c^(n-1) + ... + h(n-1)` reduced once modulo 2^32 |
| DomainObjects.HashCode | src/main/java/com/coveros/training/domainobjects/RegistrationResult.java:38-46 | the hash is `15*33^3 + flag*33^2 + statusHash*33 + messageHash` reduced into a Java `int`, where flag is 0 for true and 1 for false |
| DomainObjects.EqualObjectsHaveEqualHashes | src/main/java/com/coveros/training/domainobjects/RegistrationResult.java:24-46 | objects that are `equals` have the same `hashCode`, for any status and string hashes |
| DomainObjects.HashSeparatesSuccessFlag | src/main/java/com/coveros/training/domainobjects/RegistrationResult.java:41-45 | two results that differ only in the success flag never have the same hash |
| DomainObjects.HashSeparatesStatus | src/main/java/com/coveros/training/domainobjects/RegistrationResult.java:41-45 | two results that differ only in status have the same hash iff the two status hashes are equal |
| DomainObjects.HashSeparatesMessage | src/main/java/com/coveros/training/domainobjects/RegistrationResult.java:41-45 | two results that differ only in message have the same hash iff the two message hashes are equal |
| DomainObjects.CreateEmpty | src/main/java/com/coveros/training/domainobjects/RegistrationResult.java:52-54 | the sentinel is `(false, EMPTY, "")` |
| DomainObjects.SentinelsAreEqual | src/main/java/com/coveros/training/domainobjects/RegistrationResult.java:52-54 | any two sentinels are `equals`, wherever each is allocated |
| DomainObjects.IsEmpty | src/main/java/com/coveros/training/domainobjects/RegistrationResult.java:56-58 | true iff the fields are exactly `(false, EMPTY, "")`, however the object was built |
| DomainObjects.SentinelIsEmpty | src/main/java/com/coveros/training/domainobjects/RegistrationResult.java:52-58 | `createEmpty().isEmpty()` holds |
| DomainObjects.ChangingOneFieldIsNotEmpty | src/main/java/com/coveros/training/domainobjects/RegistrationResult.java:56-58 | setting the flag to true, the status to anything but `EMPTY`, or the message to anything but `""` makes `isEmpty` false |

## Left out

- `toString` (lines 48-50): it formats through reflection, its output format is unspecified, and it exists only for debugging.
- The members of `RegistrationStatusEnums`: that file is not part of this model. Status is modelled as `EMPTY` or an opaque numbered tag, compared by equality.
- The hash values of enum constants and strings: Java's identity-based enum hash and `String.hashCode` are outside the class, so they are parameters of `HashCode`.
- `null` values for `status` or `message`: nothing in the class relies on them, so both fields are non-null.
- The distinct allocation of each `createEmpty` result is modelled only as far as `isEmpty` needs it: the sentinel's address differs from `this`'s.
- The registration workflow that produces and consumes these objects is outside the class.
