/** The two builders that `RegistrationResult` chains in `equals` and `hashCode`: an equality
    builder that stays false once one appended pair differs, and a hash builder that folds each
    appended hash into a running Java `int` as `total * constant + hash`. */
module Builders {
  import opened JavaInt

  /** An equality builder: `isEquals` is the verdict so far. */
  datatype EqualsBuilder = EqualsBuilder(isEquals: bool) {

    /** Compares one more pair; a builder that has already failed ignores it. */
    function Append<T(==)>(lhs: T, rhs: T): EqualsBuilder {
      if !isEquals then this else EqualsBuilder(lhs == rhs)
    }
  }

  /** A fresh equality builder: nothing compared yet, so the verdict is true. */
  function NewEqualsBuilder(): EqualsBuilder {
    EqualsBuilder(true)
  }

  /** Appends a whole chain of comparison outcomes, one `Append` per outcome, in order. */
  function AppendAll(b: EqualsBuilder, outcomes: seq<bool>): EqualsBuilder
    decreases |outcomes|
  {
    if outcomes == [] then b else AppendAll(b.Append(outcomes[0], true), outcomes[1..])
  }

  /** A chain of appends ends in `true` exactly when the builder started true and every pair
      compared equal: the order of the appends does not change the verdict. */
  lemma {:induction false} AppendAllIsConjunction(b: EqualsBuilder, outcomes: seq<bool>)
    ensures AppendAll(b, outcomes).isEquals <==> b.isEquals && forall i :: 0 <= i < |outcomes| ==> outcomes[i]
    decreases |outcomes|
  {
    if outcomes != [] {
      var next, rest := b.Append(outcomes[0], true), outcomes[1..];
      AppendAllIsConjunction(next, rest);
      assert next.isEquals <==> b.isEquals && outcomes[0];
      assert (forall i :: 0 <= i < |outcomes| ==> outcomes[i])
        <==> outcomes[0] && forall i :: 0 <= i < |rest| ==> rest[i]
      by {
        assert forall i :: 0 < i < |outcomes| ==> outcomes[i] == rest[i - 1];
      }
    }
  }

  /** Once one comparison has failed, no later append makes the builder true again. */
  lemma {:induction false} FailedBuilderStaysFailed(b: EqualsBuilder, outcomes: seq<bool>)
    requires !b.isEquals
    ensures AppendAll(b, outcomes) == b
    decreases |outcomes|
  {
    if outcomes != [] {
      FailedBuilderStaysFailed(b.Append(outcomes[0], true), outcomes[1..]);
    }
  }

  /** A hash builder: the running `total` and the odd `constant` it multiplies by. */
  datatype HashCodeBuilder = HashCodeBuilder(total: Int32, constant: Int32) {

    /** Folds one more hash into the total, wrapping like Java `int` arithmetic. */
    function Append(h: Int32): HashCodeBuilder {
      HashCodeBuilder(Wrap32(total * constant + h), constant)
    }

    /** The hash a `boolean` contributes: 0 for true and 1 for false. */
    function AppendBool(value: bool): HashCodeBuilder {
      Append(if value then 0 else 1)
    }

    function ToHashCode(): Int32 {
      total
    }
  }

  /** A hash builder seeded with `initial` that multiplies by `multiplier` at every append. */
  function NewHashCodeBuilder(initial: Int32, multiplier: Int32): HashCodeBuilder {
    HashCodeBuilder(initial, multiplier)
  }

  /** Appends a whole chain of hashes, in order. */
  function HashAll(b: HashCodeBuilder, hs: seq<Int32>): HashCodeBuilder
    decreases |hs|
  {
    if hs == [] then b else HashAll(b.Append(hs[0]), hs[1..])
  }

  /** The polynomial a hash chain computes with unbounded integers:
      `total * constant^n + hs[0] * constant^(n-1) + ... + hs[n-1]`, in Horner form. */
  function Polynomial(total: int, constant: int, hs: seq<int>): int
    decreases |hs|
  {
    if hs == [] then total else Polynomial(total * constant + hs[0], constant, hs[1..])
  }

  /** Starting values congruent modulo 2^32 give congruent polynomials. */
  lemma {:induction false} PolynomialCongruent(a: int, b: int, constant: int, hs: seq<int>)
    requires (a - b) % TWO_32 == 0
    ensures (Polynomial(a, constant, hs) - Polynomial(b, constant, hs)) % TWO_32 == 0
    decreases |hs|
  {
    if hs != [] {
      ScaleCongruent(a, b, constant);
      assert (a * constant + hs[0]) - (b * constant + hs[0]) == a * constant - b * constant;
      PolynomialCongruent(a * constant + hs[0], b * constant + hs[0], constant, hs[1..]);
    }
  }

  /** Wrapping after every append gives the same hash as computing the polynomial exactly and
      wrapping once at the end. */
  lemma {:induction false} HashAllIsWrappedPolynomial(b: HashCodeBuilder, hs: seq<Int32>)
    ensures HashAll(b, hs).total == Wrap32(Polynomial(b.total, b.constant, hs))
    decreases |hs|
  {
    if hs != [] {
      var exact := b.total * b.constant + hs[0];
      var next := b.Append(hs[0]);
      assert next.total == Wrap32(exact);
      HashAllIsWrappedPolynomial(next, hs[1..]);
      PolynomialCongruent(next.total, exact, b.constant, hs[1..]);
      Wrap32Congruent(Polynomial(next.total, b.constant, hs[1..]), Polynomial(exact, b.constant, hs[1..]));
    }
  }
}
