/**
 * The record-count tuple of one iteration: how many users, groups, members
 * per group, user permissions and group permissions to generate, the check
 * that such a tuple makes sense, and the schedule that maps an iteration
 * number to a tuple.
 *
 * Go's `int` is 64 bits wide; the model uses unbounded `int` and proves
 * (IterationNoOverflow) that no intermediate value leaves the 64-bit range.
 * Go's `iteration >> 5` on a signed int is an arithmetic shift, that is
 * floor division by 32, which is what Dafny's `/` computes for a positive
 * divisor; bit `rt` of the two's-complement representation of `n` is
 * `(n / 2^rt) % 2`, again for negative `n` too.
 */
module Counts {

  /** The RecordType indices, in the order of their bits (LastRecordType == 5). */
  const Users: nat := 0
  const Groups: nat := 1
  const Members: nat := 2
  const UserPermissions: nat := 3
  const GroupPermissions: nat := 4
  const LastRecordType: nat := 5

  /** The five counts, one per RecordType. */
  datatype RecordCount = RecordCount(
    users: int,
    groups: int,
    members: int,
    userPermissions: int,
    groupPermissions: int)
  {
    /** counts[rt] */
    function At(rt: nat): int
      requires rt < LastRecordType
    {
      if rt == Users then users
      else if rt == Groups then groups
      else if rt == Members then members
      else if rt == UserPermissions then userPermissions
      else groupPermissions
    }

    /** counts[rt] = v */
    function With(rt: nat, v: int): (c: RecordCount)
      requires rt < LastRecordType
      ensures c.At(rt) == v
      ensures forall i: nat :: i < LastRecordType && i != rt ==> c.At(i) == At(i)
    {
      if rt == Users then this.(users := v)
      else if rt == Groups then this.(groups := v)
      else if rt == Members then this.(members := v)
      else if rt == UserPermissions then this.(userPermissions := v)
      else this.(groupPermissions := v)
    }
  }

  /** Two tuples with the same five components are the same tuple. */
  lemma SameComponents(a: RecordCount, b: RecordCount)
    requires forall rt: nat :: rt < LastRecordType ==> a.At(rt) == b.At(rt)
    ensures a == b
  {
    assert a.At(Users) == b.At(Users) && a.At(Groups) == b.At(Groups) && a.At(Members) == b.At(Members);
    assert a.At(UserPermissions) == b.At(UserPermissions) && a.At(GroupPermissions) == b.At(GroupPermissions);
  }

  /** The zero value of the Go array type. */
  const Zero := RecordCount(0, 0, 0, 0, 0)

  /** recordCount.sane: the checks in the order the source makes them. */
  predicate Sane(counts: RecordCount) {
    if counts.members > 0 && counts.groups == 0 then false
    else if counts.members > 0 && counts.users == 0 then false
    else if counts.members > counts.users then false
    else if counts.userPermissions > 0 && counts.users == 0 then false
    else if counts.groupPermissions > 0 && counts.groups == 0 then false
    else true
  }

  /**
   * The five checks reduce to four: "members > 0 and no users" is already
   * rejected by "members > users". Note that the source compares with zero
   * for equality, so negative group or user counts pass.
   */
  lemma SaneIff(c: RecordCount)
    ensures Sane(c) <==>
      && c.members <= c.users
      && (c.members > 0 ==> c.groups != 0)
      && (c.userPermissions > 0 ==> c.users != 0)
      && (c.groupPermissions > 0 ==> c.groups != 0)
  {
  }

  /** The all-zero tuple is sane; each documented mixture is not. */
  lemma SaneExamples(c: RecordCount)
    ensures Sane(Zero)
    ensures c.members > c.users ==> !Sane(c)
    ensures c.members > 0 && (c.groups == 0 || c.users == 0) ==> !Sane(c)
    ensures c.userPermissions > 0 && c.users == 0 ==> !Sane(c)
    ensures c.groupPermissions > 0 && c.groups == 0 ==> !Sane(c)
  {
  }

  /** A sane tuple with members to assign has users to assign them to. */
  lemma SaneMembersHaveUsers(c: RecordCount)
    requires Sane(c)
    ensures c.members > 0 ==> c.users >= c.members > 0 && c.groups != 0
  {
  }

  /** `1 << rt` for the five record types. */
  function Mask(rt: nat): nat
    requires rt < LastRecordType
  {
    if rt == 0 then 1 else if rt == 1 then 2 else if rt == 2 then 4 else if rt == 3 then 8 else 16
  }

  /** `iteration & (1 << rt) != 0`, two's complement, for any int. */
  predicate Bit(n: int, rt: nat)
    requires rt < LastRecordType
  {
    (n / Mask(rt)) % 2 == 1
  }

  /** `iteration >> LastRecordType` */
  function Baseline(n: int): int {
    n / 32
  }

  /**
   * recordCountForIteration: every count starts at baseline * 20 and the
   * counts whose bit is set get 20 more; when the shift leaves the number
   * unchanged the zero tuple is returned.
   */
  function RecordCountForIteration(iteration: int): RecordCount {
    var baseline := Baseline(iteration);
    if baseline == iteration then Zero
    else
      var b := baseline * 20;
      RecordCount(
        b + (if Bit(iteration, Users) then 20 else 0),
        b + (if Bit(iteration, Groups) then 20 else 0),
        b + (if Bit(iteration, Members) then 20 else 0),
        b + (if Bit(iteration, UserPermissions) then 20 else 0),
        b + (if Bit(iteration, GroupPermissions) then 20 else 0))
  }

  /**
   * The shift leaves a number unchanged exactly for 0 and -1, so among the
   * iteration numbers the driver produces only iteration 0 takes the
   * zero-tuple branch.
   */
  lemma BaselineFixedPoints(n: int)
    ensures Baseline(n) == n <==> n == 0 || n == -1
  {
  }

  /**
   * For every iteration other than 0 and -1, component rt is
   * 20 * (n >> 5) plus 20 exactly when bit rt of n is set.
   */
  lemma IterationComponent(n: int, rt: nat)
    requires rt < LastRecordType
    ensures n == 0 || n == -1 ==> RecordCountForIteration(n) == Zero
    ensures n != 0 && n != -1 ==>
      RecordCountForIteration(n).At(rt) == 20 * (n / 32) + (if Bit(n, rt) then 20 else 0)
  {
    BaselineFixedPoints(n);
  }

  /**
   * For a non-negative iteration every component is a non-negative
   * multiple of 20, between 20 * (n >> 5) and 20 * (n >> 5) + 20.
   */
  lemma IterationBounds(n: nat, rt: nat)
    requires rt < LastRecordType
    ensures var v := RecordCountForIteration(n).At(rt);
      && v >= 0
      && v % 20 == 0
      && (n > 0 ==> 20 * (n / 32) <= v <= 20 * (n / 32) + 20)
  {
    IterationComponent(n, rt);
    if n > 0 {
      var v := RecordCountForIteration(n).At(rt);
      DivUnique(v, 20, n / 32 + (if Bit(n, rt) then 1 else 0), 0);
    }
  }

  /** A positive multiple of u is at least u. */
  lemma MulMono(d: int, u: int)
    requires u > 0 && d >= 1
    ensures d * u >= u
  {
  }

  /** Euclidean division is determined by any quotient and remainder in range. */
  lemma DivUnique(k: int, u: int, q: int, r: int)
    requires u > 0 && 0 <= r < u && k == q * u + r
    ensures k / u == q && k % u == r
  {
    var q0 := k / u;
    var d := if q0 > q then q0 - q else q - q0;
    assert d * u == if q0 > q then q0 * u - q * u else q * u - q0 * u;
    if d >= 1 {
      MulMono(d, u);
    }
  }

  /** The bits 0..4 of 32 * k + 31 are all set. */
  lemma LowBitsAllSet(k: int, rt: nat)
    requires rt < LastRecordType
    ensures Bit(32 * k + 31, rt)
  {
    var n, m := 32 * k + 31, Mask(rt);
    // n == m * q + (m - 1), and q == 2 * h + 1
    var q := if rt == 0 then 32 * k + 31 else if rt == 1 then 16 * k + 15 else if rt == 2 then 8 * k + 7
             else if rt == 3 then 4 * k + 3 else 2 * k + 1;
    var h := if rt == 0 then 16 * k + 15 else if rt == 1 then 8 * k + 7 else if rt == 2 then 4 * k + 3
             else if rt == 3 then 2 * k + 1 else k;
    DivUnique(n, m, q, m - 1);
    DivUnique(q, 2, h, 1);
  }

  /** The bits 0..4 of 32 * k are all clear. */
  lemma LowBitsAllClear(k: int, rt: nat)
    requires rt < LastRecordType
    ensures !Bit(32 * k, rt)
  {
    var n, m := 32 * k, Mask(rt);
    var q := if rt == 0 then 32 * k else if rt == 1 then 16 * k else if rt == 2 then 8 * k else if rt == 3 then 4 * k else 2 * k;
    var h := if rt == 0 then 16 * k else if rt == 1 then 8 * k else if rt == 2 then 4 * k else if rt == 3 then 2 * k else k;
    DivUnique(n, m, q, 0);
    DivUnique(q, 2, h, 0);
  }

  /**
   * "An overflow is treated as increment all record counts": iteration
   * 32k+31 (all five bits set on baseline k) and iteration 32k+32 (no bit
   * set on baseline k+1) produce the same tuple.
   */
  lemma OverflowIncrementsAll(k: int)
    ensures RecordCountForIteration(32 * k + 31) == RecordCountForIteration(32 * k + 32)
  {
    var a, b := 32 * k + 31, 32 * (k + 1);
    assert b == 32 * k + 32;
    if k != -1 {
      assert Baseline(a) == k && Baseline(b) == k + 1;
      BaselineFixedPoints(a);
      BaselineFixedPoints(b);
      forall rt: nat | rt < LastRecordType
        ensures RecordCountForIteration(a).At(rt) == RecordCountForIteration(b).At(rt)
      {
        LowBitsAllSet(k, rt);
        LowBitsAllClear(k + 1, rt);
        IterationComponent(a, rt);
        IterationComponent(b, rt);
      }
      assert RecordCountForIteration(a).At(Users) == RecordCountForIteration(b).At(Users);
      assert RecordCountForIteration(a).At(Groups) == RecordCountForIteration(b).At(Groups);
      assert RecordCountForIteration(a).At(Members) == RecordCountForIteration(b).At(Members);
      assert RecordCountForIteration(a).At(UserPermissions) == RecordCountForIteration(b).At(UserPermissions);
      assert RecordCountForIteration(a).At(GroupPermissions) == RecordCountForIteration(b).At(GroupPermissions);
    }
  }

  /**
   * Which iterations the driver skips: iteration n > 0 is sane exactly when
   * a members increment comes with a users increment, and, while the
   * baseline is still 0 (n < 32), members and group permissions come with
   * groups and user permissions come with users.
   */
  lemma IterationSaneIff(n: nat)
    requires n > 0
    ensures Sane(RecordCountForIteration(n)) <==>
      && (Bit(n, Members) ==> Bit(n, Users))
      && (n < 32 ==>
            && (Bit(n, Members) ==> Bit(n, Groups))
            && (Bit(n, UserPermissions) ==> Bit(n, Users))
            && (Bit(n, GroupPermissions) ==> Bit(n, Groups)))
  {
    BaselineFixedPoints(n);
  }

  /** No component leaves the range of Go's 64-bit int. */
  lemma IterationNoOverflow(n: int, rt: nat)
    requires -0x8000_0000_0000_0000 <= n < 0x8000_0000_0000_0000
    requires rt < LastRecordType
    ensures -0x8000_0000_0000_0000 <= RecordCountForIteration(n).At(rt) < 0x8000_0000_0000_0000
  {
    IterationComponent(n, rt);
  }

  /**
   * recordCountForIteration as the source computes it: the zero tuple when
   * the shift is a fixed point, otherwise one loop setting every count to
   * the baseline and a second adding 20 to each count whose bit is set.
   */
  method ComputeRecordCount(iteration: int) returns (counts: RecordCount)
    ensures counts == RecordCountForIteration(iteration)
  {
    counts := Zero;
    var baseline := Baseline(iteration);
    if baseline == iteration {
      return;
    }
    var cidx: nat := 0;
    while cidx < LastRecordType
      invariant cidx <= LastRecordType
      invariant forall i: nat :: i < cidx ==> counts.At(i) == baseline * 20
      invariant forall i: nat :: cidx <= i < LastRecordType ==> counts.At(i) == 0
    {
      counts := counts.With(cidx, baseline * 20);
      cidx := cidx + 1;
    }
    var rt: nat := 0;
    while rt < LastRecordType
      invariant rt <= LastRecordType
      invariant forall i: nat :: i < rt ==> counts.At(i) == baseline * 20 + (if Bit(iteration, i) then 20 else 0)
      invariant forall i: nat :: rt <= i < LastRecordType ==> counts.At(i) == baseline * 20
    {
      if Bit(iteration, rt) {
        counts := counts.With(rt, counts.At(rt) + 20);
      }
      rt := rt + 1;
    }
    forall i: nat | i < LastRecordType
      ensures counts.At(i) == RecordCountForIteration(iteration).At(i)
    {
      IterationComponent(iteration, i);
      BaselineFixedPoints(iteration);
    }
    SameComponents(counts, RecordCountForIteration(iteration));
  }
}
