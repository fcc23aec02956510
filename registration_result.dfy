/** The outcome of a user-registration attempt: an immutable record of a success flag, a status
    tag and a message, with field-wise equality, a hash built from the same fields, and an "empty"
    sentinel value. */
module DomainObjects {
  import opened JavaInt
  import opened Builders

  /** The registration status tags. Only the sentinel `EMPTY` is named; every other tag is
      distinguished by an opaque number. */
  datatype Status = EMPTY | Other(tag: nat)

  /** The three final fields of a `RegistrationResult`. */
  datatype RegistrationResult = RegistrationResult(wasSuccessfullyRegistered: bool, status: Status, message: string)

  /** A reference to a `RegistrationResult` object: its identity (`address`) and its fields. */
  datatype Ref = Ref(address: nat, obj: RegistrationResult)

  /** What `equals` may be handed: `null`, an object of some other runtime class (which may
      carry the very same three values), or a `RegistrationResult`. */
  datatype Obj =
    | Null
    | OtherClass(wasSuccessfullyRegistered: bool, status: Status, message: string)
    | Instance(ref: Ref)

  /** The fields of an object never change, so one address always denotes one value. */
  predicate SameAddressSameFields(a: Ref, b: Ref) {
    a.address == b.address ==> a.obj == b.obj
  }

  /** The three-argument constructor: stores its arguments unchanged. */
  function New(wasSuccessfullyRegistered: bool, status: Status, message: string): (r: RegistrationResult)
    ensures r.wasSuccessfullyRegistered == wasSuccessfullyRegistered
    ensures r.status == status
    ensures r.message == message
  {
    RegistrationResult(wasSuccessfullyRegistered, status, message)
  }

  /** The two-argument constructor: the three-argument one with an empty message. */
  function NewWithoutMessage(wasSuccessfullyRegistered: bool, status: Status): (r: RegistrationResult)
    ensures r == New(wasSuccessfullyRegistered, status, "")
    ensures r.message == ""
  {
    New(wasSuccessfullyRegistered, status, "")
  }

  /** `equals`: false for `null`, true for the same object, false for an object of another
      class, and otherwise the verdict of comparing the three fields in order. */
  function Equals(self: Ref, other: Obj): (r: bool)
    ensures other.Null? ==> !r
    ensures other.OtherClass? ==> !r
    ensures other.Instance? && other.ref.address == self.address ==> r
    ensures other.Instance? && other.ref.address != self.address ==>
              (r <==> && self.obj.wasSuccessfullyRegistered == other.ref.obj.wasSuccessfullyRegistered
                      && self.obj.status == other.ref.obj.status
                      && self.obj.message == other.ref.obj.message)
  {
    match other
    case Null => false
    case OtherClass(_, _, _) => false
    case Instance(rhs) =>
      if rhs.address == self.address then true
      else
        NewEqualsBuilder()
          .Append(self.obj.wasSuccessfullyRegistered, rhs.obj.wasSuccessfullyRegistered)
          .Append(self.obj.status, rhs.obj.status)
          .Append(self.obj.message, rhs.obj.message)
          .isEquals
  }

  /** `hashCode`: a hash builder seeded with 15 and multiplier 33, fed the success flag, the
      status's hash and the message's hash. The status hash (identity-based for an enum constant)
      and the string hash are supplied by the caller. */
  function HashCode(self: RegistrationResult, statusHash: Status -> Int32, stringHash: string -> Int32): (h: Int32)
    ensures h == Wrap32(Polynomial(15, 33, [BoolHash(self.wasSuccessfullyRegistered), statusHash(self.status), stringHash(self.message)]))
  {
    var hs := [BoolHash(self.wasSuccessfullyRegistered), statusHash(self.status), stringHash(self.message)];
    var b := NewHashCodeBuilder(15, 33);
    HashAllIsWrappedPolynomial(b, hs);
    var b1 := b.AppendBool(self.wasSuccessfullyRegistered);
    assert hs[1..] == [hs[1], hs[2]] && hs[1..][1..] == [hs[2]];
    assert HashAll(b1.Append(hs[1]).Append(hs[2]), []) == b1.Append(hs[1]).Append(hs[2]);
    assert HashAll(b1.Append(hs[1]), [hs[2]]) == b1.Append(hs[1]).Append(hs[2]);
    assert HashAll(b1, [hs[1], hs[2]]) == b1.Append(hs[1]).Append(hs[2]);
    b.AppendBool(self.wasSuccessfullyRegistered)
      .Append(statusHash(self.status))
      .Append(stringHash(self.message))
      .ToHashCode()
  }

  /** The hash a hash builder gives a `boolean`. */
  function BoolHash(value: bool): Int32 {
    if value then 0 else 1
  }

  /** `createEmpty`: the sentinel "no result" value. */
  function CreateEmpty(): (r: RegistrationResult)
    ensures !r.wasSuccessfullyRegistered && r.status == EMPTY && r.message == ""
  {
    NewWithoutMessage(false, EMPTY)
  }

  /** `isEmpty`: compares this object with a freshly created sentinel, which lives at
      `sentinelAddress`, an address that a new allocation cannot share with `this`. */
  function IsEmpty(self: Ref, sentinelAddress: nat): (r: bool)
    requires sentinelAddress != self.address
    ensures r <==> self.obj == RegistrationResult(false, EMPTY, "")
  {
    Equals(self, Instance(Ref(sentinelAddress, CreateEmpty())))
  }

  /** Equality without the identity short-circuit: the field-wise comparison alone. */
  function FieldwiseEquals(self: RegistrationResult, other: Obj): bool {
    other.Instance?
    && self.wasSuccessfullyRegistered == other.ref.obj.wasSuccessfullyRegistered
    && self.status == other.ref.obj.status
    && self.message == other.ref.obj.message
  }

  /** The identity short-circuit never changes the answer: `equals` is exactly field-wise
      comparison, given that one address always holds one value. */
  lemma IdentityShortCircuitIsHarmless(self: Ref, other: Obj)
    requires other.Instance? ==> SameAddressSameFields(self, other.ref)
    ensures Equals(self, other) == FieldwiseEquals(self.obj, other)
  {
  }

  /** Two `RegistrationResult`s are equal exactly when they are equal as values. */
  lemma EqualsIsValueEquality(a: Ref, b: Ref)
    requires SameAddressSameFields(a, b)
    ensures Equals(a, Instance(b)) <==> a.obj == b.obj
  {
  }

  lemma EqualsIsReflexive(a: Ref)
    ensures Equals(a, Instance(a))
  {
  }

  lemma EqualsIsSymmetric(a: Ref, b: Ref)
    requires SameAddressSameFields(a, b)
    ensures Equals(a, Instance(b)) == Equals(b, Instance(a))
  {
  }

  lemma EqualsIsTransitive(a: Ref, b: Ref, c: Ref)
    requires SameAddressSameFields(a, b) && SameAddressSameFields(b, c) && SameAddressSameFields(a, c)
    requires Equals(a, Instance(b)) && Equals(b, Instance(c))
    ensures Equals(a, Instance(c))
  {
  }

  /** Equal objects have equal hashes, whatever hashes the status tags and strings have. */
  lemma EqualObjectsHaveEqualHashes(a: Ref, b: Ref, statusHash: Status -> Int32, stringHash: string -> Int32)
    requires SameAddressSameFields(a, b)
    requires Equals(a, Instance(b))
    ensures HashCode(a.obj, statusHash, stringHash) == HashCode(b.obj, statusHash, stringHash)
  {
  }

  /** Results that differ only in the success flag never share a hash. */
  lemma HashSeparatesSuccessFlag(status: Status, message: string, statusHash: Status -> Int32, stringHash: string -> Int32)
    ensures HashCode(New(true, status, message), statusHash, stringHash)
         != HashCode(New(false, status, message), statusHash, stringHash)
  {
    var sh: int, mh: int := statusHash(status), stringHash(message);
    var exactTrue: int := ((15 * 33 + 0) * 33 + sh) * 33 + mh;
    var exactFalse: int := ((15 * 33 + 1) * 33 + sh) * 33 + mh;
    PolynomialOfThree(15, 33, 0, sh, mh);
    PolynomialOfThree(15, 33, 1, sh, mh);
    Wrap32Congruent(exactTrue, exactFalse);
    assert exactTrue - exactFalse == -1089;
  }

  /** Results that differ only in the status collide exactly when the two status hashes are
      equal: multiplying by the odd 33 loses nothing modulo 2^32. */
  lemma HashSeparatesStatus(flag: bool, s1: Status, s2: Status, message: string, statusHash: Status -> Int32, stringHash: string -> Int32)
    ensures HashCode(New(flag, s1, message), statusHash, stringHash) == HashCode(New(flag, s2, message), statusHash, stringHash)
        <==> statusHash(s1) == statusHash(s2)
  {
    var x: int, mh: int := BoolHash(flag), stringHash(message);
    var h1: int, h2: int := statusHash(s1), statusHash(s2);
    PolynomialOfThree(15, 33, x, h1, mh);
    PolynomialOfThree(15, 33, x, h2, mh);
    var e1: int, e2: int := ((15 * 33 + x) * 33 + h1) * 33 + mh, ((15 * 33 + x) * 33 + h2) * 33 + mh;
    assert e1 - e2 == (h1 - h2) * 33;
    Wrap32Congruent(e1, e2);
    if (e1 - e2) % TWO_32 == 0 {
      OddFactorCancels(h1 - h2);
      Wrap32Congruent(h1, h2);
    }
  }

  /** Results that differ only in the message collide exactly when the two message hashes are
      equal. */
  lemma HashSeparatesMessage(flag: bool, status: Status, m1: string, m2: string, statusHash: Status -> Int32, stringHash: string -> Int32)
    ensures HashCode(New(flag, status, m1), statusHash, stringHash) == HashCode(New(flag, status, m2), statusHash, stringHash)
        <==> stringHash(m1) == stringHash(m2)
  {
  }

  /** The polynomial of a three-element chain, written out. */
  lemma PolynomialOfThree(total: int, constant: int, a: int, b: int, c: int)
    ensures Polynomial(total, constant, [a, b, c]) == ((total * constant + a) * constant + b) * constant + c
  {
    assert [a, b, c][1..] == [b, c];
    assert [b, c][1..] == [c];
    assert Polynomial(((total * constant + a) * constant + b) * constant + c, constant, []) == ((total * constant + a) * constant + b) * constant + c;
    assert Polynomial((total * constant + a) * constant + b, constant, [c]) == ((total * constant + a) * constant + b) * constant + c;
    assert Polynomial(total * constant + a, constant, [b, c]) == ((total * constant + a) * constant + b) * constant + c;
  }

  /** 33 is invertible modulo 2^32 (33 * 1041204193 = 8 * 2^32 + 1), so a multiple of 33 that is
      congruent to zero was congruent to zero before the multiplication. */
  lemma OddFactorCancels(d: int)
    requires (d * 33) % TWO_32 == 0
    ensures d % TWO_32 == 0
  {
  }

  /** Two sentinels, wherever they are allocated, are equal to each other. */
  lemma SentinelsAreEqual(a: nat, b: nat)
    ensures Equals(Ref(a, CreateEmpty()), Instance(Ref(b, CreateEmpty())))
  {
  }

  /** The sentinel is empty. */
  lemma SentinelIsEmpty(address: nat, sentinelAddress: nat)
    requires sentinelAddress != address
    ensures IsEmpty(Ref(address, CreateEmpty()), sentinelAddress)
  {
  }

  /** Changing any one field of the sentinel makes it non-empty. */
  lemma ChangingOneFieldIsNotEmpty(address: nat, sentinelAddress: nat, status: Status, message: string)
    requires sentinelAddress != address
    ensures !IsEmpty(Ref(address, New(true, EMPTY, "")), sentinelAddress)
    ensures status != EMPTY ==> !IsEmpty(Ref(address, New(false, status, "")), sentinelAddress)
    ensures message != "" ==> !IsEmpty(Ref(address, New(false, EMPTY, message)), sentinelAddress)
  {
  }
}
