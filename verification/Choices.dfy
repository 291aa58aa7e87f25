/**
 A non-optional choice of bool members: sym_calc_choice, sym_choice_default and the choice
 branches of sym_calc_value and sym_set_tristate_value.  The parts of the prompt conditions
 that do not concern the choice itself are inputs that other settings may change.
 */
module Choices {
  import opened Tristates

  /** A bool never stays at m. */
  function LiftBool(t: Tristate): Tristate { if t == MOD then YES else t }

  /** What the selection depends on: the outer conditions and the member the user named. */
  datatype Inputs = Inputs(
    choiceCond: Tristate,
    memberConds: seq<Tristate>,
    defaultMembers: seq<nat>,
    defaultConds: seq<Tristate>,
    userVal: Option<nat>)

  predicate Shaped(x: Inputs) {
    && |x.defaultConds| == |x.defaultMembers|
    && (forall k :: 0 <= k < |x.defaultMembers| ==> x.defaultMembers[k] < |x.memberConds|)
    && (x.userVal.Some? ==> x.userVal.value < |x.memberConds|)
  }

  /** The choice and the member's own condition allow the member. */
  predicate Offered(x: Inputs, i: nat)
    requires i < |x.memberConds|
  {
    x.choiceCond != NO && x.memberConds[i] != NO
  }

  ghost predicate Available(x: Inputs) { exists i: nat :: i < |x.memberConds| && Offered(x, i) }

  /** The first default that applies and is offered. */
  function DefaultFrom(x: Inputs, k: nat): Option<nat>
    requires Shaped(x) && k <= |x.defaultMembers|
    decreases |x.defaultMembers| - k
  {
    if k == |x.defaultMembers| then None
    else if x.defaultConds[k] != NO && Offered(x, x.defaultMembers[k]) then Some(x.defaultMembers[k])
    else DefaultFrom(x, k + 1)
  }

  /** The first member that is offered. */
  function FirstFrom(x: Inputs, i: nat): Option<nat>
    requires i <= |x.memberConds|
    decreases |x.memberConds| - i
  {
    if i == |x.memberConds| then None else if Offered(x, i) then Some(i) else FirstFrom(x, i + 1)
  }

  /** The user's member if it is offered, else the default, else the first offered. */
  function Winner(x: Inputs): Option<nat>
    requires Shaped(x)
  {
    if x.userVal.Some? && Offered(x, x.userVal.value) then x.userVal
    else if DefaultFrom(x, 0).Some? then DefaultFrom(x, 0)
    else FirstFrom(x, 0)
  }

  lemma {:induction false} FirstFromMeaning(x: Inputs, i: nat)
    requires i <= |x.memberConds|
    ensures FirstFrom(x, i).Some? ==> FirstFrom(x, i).value < |x.memberConds| && Offered(x, FirstFrom(x, i).value)
    ensures FirstFrom(x, i).None? ==> forall j: nat :: i <= j < |x.memberConds| ==> !Offered(x, j)
    decreases |x.memberConds| - i
  {
    if i < |x.memberConds| { FirstFromMeaning(x, i + 1); }
  }

  lemma {:induction false} DefaultFromMeaning(x: Inputs, k: nat)
    requires Shaped(x) && k <= |x.defaultMembers|
    ensures DefaultFrom(x, k).Some? ==> DefaultFrom(x, k).value < |x.memberConds| && Offered(x, DefaultFrom(x, k).value)
    decreases |x.defaultMembers| - k
  {
    if k < |x.defaultMembers| { DefaultFromMeaning(x, k + 1); }
  }

  /** There is a winner exactly if some member is offered, and it is offered itself. */
  lemma WinnerMeaning(x: Inputs)
    requires Shaped(x)
    ensures Winner(x).Some? <==> Available(x)
    ensures Winner(x).Some? ==> Winner(x).value < |x.memberConds| && Offered(x, Winner(x).value)
  {
    FirstFromMeaning(x, 0);
    DefaultFromMeaning(x, 0);
  }

  /** Default k applies, and its member is offered. */
  predicate Applies(x: Inputs, k: nat)
    requires Shaped(x) && k < |x.defaultMembers|
  {
    x.defaultConds[k] != NO && Offered(x, x.defaultMembers[k])
  }

  /**
   The member the choice must select: the user's if it is offered; else that of the first default that
   applies with its member offered; else the first member offered.
   */
  ghost predicate Due(x: Inputs, i: nat)
    requires Shaped(x)
  {
    && i < |x.memberConds| && Offered(x, i)
    && if x.userVal.Some? && Offered(x, x.userVal.value) then x.userVal == Some(i)
       else if exists k: nat :: k < |x.defaultMembers| && Applies(x, k) then DueByDefault(x, i)
       else forall j: nat :: j < i ==> !Offered(x, j)
  }

  ghost predicate DueByDefault(x: Inputs, i: nat)
    requires Shaped(x)
  {
    exists k: nat :: k < |x.defaultMembers| && Applies(x, k) && x.defaultMembers[k] == i &&
                     forall j: nat :: j < k ==> !Applies(x, j)
  }

  lemma {:induction false} FirstFromIs(x: Inputs, i: nat, m: nat)
    requires i <= m < |x.memberConds| && Offered(x, m) && forall j: nat :: i <= j < m ==> !Offered(x, j)
    ensures FirstFrom(x, i) == Some(m)
    decreases m - i
  {
    if i < m { FirstFromIs(x, i + 1, m); }
  }

  lemma {:induction false} DefaultFromIs(x: Inputs, i: nat, k: nat)
    requires Shaped(x) && i <= k < |x.defaultMembers| && Applies(x, k) && forall j: nat :: i <= j < k ==> !Applies(x, j)
    ensures DefaultFrom(x, i) == Some(x.defaultMembers[k])
    decreases k - i
  {
    assert i < k ==> !Applies(x, i);
    if i < k { DefaultFromIs(x, i + 1, k); }
  }

  lemma {:induction false} DefaultFromNone(x: Inputs, i: nat)
    requires Shaped(x) && i <= |x.defaultMembers| && forall k: nat :: k < |x.defaultMembers| ==> !Applies(x, k)
    ensures DefaultFrom(x, i) == None
    decreases |x.defaultMembers| - i
  {
    assert i < |x.defaultMembers| ==> !Applies(x, i);
    if i < |x.defaultMembers| { DefaultFromNone(x, i + 1); }
  }

  lemma {:induction false} FirstApplies(x: Inputs, i: nat) returns (k: nat)
    requires Shaped(x) && i < |x.defaultMembers| && exists j: nat :: i <= j < |x.defaultMembers| && Applies(x, j)
    ensures i <= k < |x.defaultMembers| && Applies(x, k) && forall j: nat :: i <= j < k ==> !Applies(x, j)
    decreases |x.defaultMembers| - i
  {
    if Applies(x, i) { k := i; } else { k := FirstApplies(x, i + 1); }
  }

  lemma {:induction false} FirstOffered(x: Inputs, i: nat) returns (m: nat)
    requires i < |x.memberConds| && exists j: nat :: i <= j < |x.memberConds| && Offered(x, j)
    ensures i <= m < |x.memberConds| && Offered(x, m) && forall j: nat :: i <= j < m ==> !Offered(x, j)
    decreases |x.memberConds| - i
  {
    if Offered(x, i) { m := i; } else { m := FirstOffered(x, i + 1); }
  }

  /** The winner is the member that is due, and there is no other. */
  lemma WinnerIsDue(x: Inputs, i: nat)
    requires Shaped(x)
    ensures Winner(x) == Some(i) <==> Due(x, i)
  {
    WinnerMeaning(x);
    if x.userVal.Some? && Offered(x, x.userVal.value) {
    } else if exists k: nat :: k < |x.defaultMembers| && Applies(x, k) {
      var k := FirstApplies(x, 0);
      DefaultFromIs(x, 0, k);
      if Due(x, i) {
        var k': nat :| k' < |x.defaultMembers| && Applies(x, k') && x.defaultMembers[k'] == i &&
                  forall j: nat :: j < k' ==> !Applies(x, j);
        assert Applies(x, k) && Applies(x, k');
        assert k == k';
      }
    } else {
      DefaultFromNone(x, 0);
      if Due(x, i) { FirstFromIs(x, 0, i); }
      if Winner(x) == Some(i) {
        var m := FirstOffered(x, 0);
        FirstFromIs(x, 0, m);
      }
    }
  }

  class Choice {
    const count: nat
    const defaultMembers: seq<nat>
    // conditions from outside
    var choiceCond: Tristate
    var memberConds: seq<Tristate>
    var defaultConds: seq<Tristate>
    // the choice symbol
    var choiceValid: bool
    var choiceTri: Tristate
    var choiceVal: Option<nat>
    var userVal: Option<nat>
    var userFlag: bool
    var userTri: Tristate
    // the members
    var memberValid: seq<bool>
    var memberVisible: seq<Tristate>
    var memberTri: seq<Tristate>
    var memberFlag: seq<bool>
    var memberUserTri: seq<Tristate>

    function In(): Inputs
      reads this
    {
      Inputs(choiceCond, memberConds, defaultMembers, defaultConds, userVal)
    }

    ghost predicate Sized()
      reads this
    {
      && |memberConds| == |memberValid| == |memberVisible| == |memberTri| == |memberFlag| == |memberUserTri| == count
      && Shaped(In())
    }

    // ---- consistency of the memoised state ----

    ghost predicate Inv()
      reads this
    {
      && Sized()
      && (choiceValid ==> choiceVal == Winner(In()) && choiceTri == if Winner(In()).Some? then YES else NO)
      && forall i :: 0 <= i < count && memberValid[i] ==>
           choiceValid && memberTri[i] == (if Winner(In()) == Some(i) then YES else NO) &&
           memberVisible[i] == (if Offered(In(), i) then YES else NO)
    }

    constructor (n: nat, defaults: seq<nat>, cc: Tristate, mc: seq<Tristate>, dc: seq<Tristate>)
      requires |mc| == n && |dc| == |defaults| && forall k :: 0 <= k < |defaults| ==> defaults[k] < n
      ensures Inv()
    {
      count, defaultMembers, choiceCond, memberConds, defaultConds := n, defaults, cc, mc, dc;
      choiceValid, choiceTri, choiceVal, userVal, userFlag, userTri := false, NO, None, None, false, NO;
      memberValid, memberFlag := seq(n, _ => false), seq(n, _ => false);
      memberVisible, memberTri, memberUserTri := seq(n, _ => NO), seq(n, _ => NO), seq(n, _ => NO);
    }

    // ---- sym_calc_value of the choice ----

    method CalcChoice()
      requires Inv()
      modifies this
      ensures Inv() && In() == old(In()) && choiceValid && memberValid == old(memberValid)
    {
      if choiceValid { return; }
      choiceValid := true;
      var visible, rev := LiftBool(choiceCond), LiftBool(AndTri(choiceCond, MOD));
      choiceTri, choiceVal := NO, None;
      var tri := NO;
      if visible != NO && userFlag { tri := AndTri(userTri, visible); }
      tri := LiftBool(OrTri(tri, rev));
      choiceTri := tri;
      assert choiceTri == if choiceCond != NO then YES else NO;
      if tri == YES {
        CalcMemberVisibilities();
        choiceVal := PickMember();
        if choiceVal.None? { choiceTri := NO; }
      }
      WinnerMeaning(In());
    }

    /** The visibility of every member; the choice counts as new if a visible member is. */
    method CalcMemberVisibilities()
      requires Sized() && choiceTri == YES && choiceCond != NO
      modifies this`memberVisible, this`userFlag
      ensures Sized() && In() == old(In())
      ensures forall j :: 0 <= j < count ==> memberVisible[j] == if Offered(In(), j) then YES else NO
    {
      for i := 0 to count
        invariant Sized() && In() == old(In())
        invariant forall j :: 0 <= j < i ==> memberVisible[j] == if Offered(In(), j) then YES else NO
      {
        memberVisible := memberVisible[i := LiftBool(AndTri(choiceTri, memberConds[i]))];
        if memberVisible[i] != NO { userFlag := userFlag && memberFlag[i]; }
      }
    }

    method PickMember() returns (r: Option<nat>)
      requires Sized() && forall j :: 0 <= j < count ==> memberVisible[j] == if Offered(In(), j) then YES else NO
      ensures r == Winner(In())
    {
      if userVal.Some? && memberVisible[userVal.value] != NO { return userVal; }
      for k := 0 to |defaultMembers|
        invariant DefaultFrom(In(), k) == DefaultFrom(In(), 0)
      {
        if defaultConds[k] != NO && memberVisible[defaultMembers[k]] != NO { return Some(defaultMembers[k]); }
      }
      for i := 0 to count
        invariant FirstFrom(In(), i) == FirstFrom(In(), 0)
      {
        if memberVisible[i] != NO { return Some(i); }
      }
      return None;
    }

    // ---- sym_calc_value of a member ----

    method CalcMember(i: nat)
      requires Inv() && i < count
      modifies this
      ensures Inv() && In() == old(In()) && memberValid == old(memberValid)[i := true]
    {
      if memberValid[i] { return; }
      CalcChoice();
      WinnerMeaning(In());
      memberVisible := memberVisible[i := LiftBool(AndTri(choiceTri, memberConds[i]))];
      var tri := NO;
      if memberVisible[i] == YES {
        tri := if choiceVal == Some(i) then YES else NO;
      }
      memberTri, memberValid := memberTri[i := tri], memberValid[i := true];
    }

    /** Exactly the winner is y if a member is offered; otherwise all are n. */
    ghost predicate ExactlyOne()
      requires Sized()
      reads this
    {
      if Available(In()) then
        exists w: nat :: w < count && Offered(In(), w) && choiceVal == Some(w) && choiceTri == YES && OnlyWinner(w)
      else forall i :: 0 <= i < count ==> memberTri[i] == NO
    }

    ghost predicate OnlyWinner(w: nat)
      requires Sized()
      reads this
    {
      forall i :: 0 <= i < count ==> memberTri[i] == if i == w then YES else NO
    }

    /** The member that is y is the one that is due. */
    ghost predicate DueIsYes()
      requires Sized()
      reads this
    {
      forall i: nat :: i < count ==> (memberTri[i] == YES <==> Due(In(), i))
    }

    /** Members may be asked for in any order. */
    method CalcAll(order: seq<nat>)
      requires Inv() && (forall k :: 0 <= k < |order| ==> order[k] < count)
      requires forall i: nat :: i < count ==> i in order
      modifies this
      ensures Inv() && In() == old(In())
      ensures forall i :: 0 <= i < count ==> memberValid[i]
      ensures ExactlyOne() && DueIsYes()
    {
      for k := 0 to |order|
        invariant Inv() && In() == old(In())
        invariant forall j :: 0 <= j < k ==> memberValid[order[j]]
      {
        CalcMember(order[k]);
      }
      forall i: nat | i < count
        ensures memberValid[i]
      {
        assert i in order;
        var k :| 0 <= k < |order| && order[k] == i;
      }
      WinnerMeaning(In());
      if Available(In()) { assert OnlyWinner(Winner(In()).value); }
      forall i: nat | i < count
        ensures memberTri[i] == YES <==> Due(In(), i)
      {
        WinnerIsDue(In(), i);
      }
    }

    // ---- steps of a run ----

    method ClearValid()
      requires Sized()
      modifies this`choiceValid, this`memberValid
      ensures Inv() && !choiceValid && In() == old(In())
    {
      choiceValid, memberValid := false, seq(count, _ => false);
    }

    /** Other symbols changed: the outer conditions have new values. */
    method ChangeConditions(cc: Tristate, mc: seq<Tristate>, dc: seq<Tristate>)
      requires Inv() && |mc| == count && |dc| == |defaultMembers|
      modifies this
      ensures Inv() && In() == old(In()).(choiceCond := cc, memberConds := mc, defaultConds := dc)
    {
      choiceCond, memberConds, defaultConds := cc, mc, dc;
      ClearValid();
    }

    /** sym_set_tristate_value on an evaluated member. */
    method SetMember(i: nat, val: Tristate) returns (ok: bool)
      requires Inv() && i < count && memberValid[i]
      modifies this
      ensures Inv()
      ensures ok == (old(memberTri[i]) == val || (val == YES && Offered(old(In()), i)))
      ensures !ok ==> In() == old(In()) && memberTri == old(memberTri) && memberValid == old(memberValid)
      ensures ok ==> In() == old(In()).(userVal := if val == YES then Some(i) else old(userVal))
      ensures ok && val == YES ==> Winner(In()) == Some(i)
      ensures ok && val != YES ==> Winner(In()) == Winner(old(In()))
    {
      WinnerMeaning(In());
      var oldval := memberTri[i];
      if oldval != val && !(memberVisible[i] == YES && val == YES) { return false; }
      memberFlag := memberFlag[i := true];
      if val == YES {
        userVal, userFlag := Some(i), true;
        for j := 0 to count
          invariant |memberFlag| == count && In() == old(In()).(userVal := Some(i))
          invariant choiceValid == old(choiceValid) && choiceVal == old(choiceVal) && choiceTri == old(choiceTri)
          invariant memberValid == old(memberValid) && memberTri == old(memberTri) &&
                    memberVisible == old(memberVisible) && memberUserTri == old(memberUserTri)
        {
          if memberVisible[j] != NO { memberFlag := memberFlag[j := true]; }
        }
      }
      memberUserTri := memberUserTri[i := val];
      if oldval != val { ClearValid(); }
      ok := true;
    }

    /** The choice itself is held by its own reverse dependency: only the value it has is accepted. */
    method SetChoice(val: Tristate) returns (ok: bool)
      requires Inv() && choiceValid
      modifies this
      ensures Inv() && In() == old(In()) && choiceTri == old(choiceTri) && memberTri == old(memberTri)
      ensures ok == (val == choiceTri)
    {
      var visible, rev := LiftBool(choiceCond), LiftBool(AndTri(choiceCond, MOD));
      ok := val == choiceTri || (visible != NO && val != MOD && visible > rev && rev <= val <= visible);
      if ok { userFlag, userTri := true, val; }
    }

    /** A loaded configuration may name any member, or none. */
    method Load(member: Option<nat>, flag: bool, tri: Tristate, flags: seq<bool>, tris: seq<Tristate>)
      requires Inv() && (member.Some? ==> member.value < count) && |flags| == count && |tris| == count
      modifies this
      ensures Inv() && In() == old(In()).(userVal := member)
    {
      userVal, userFlag, userTri, memberFlag, memberUserTri := member, flag, tri, flags, tris;
      ClearValid();
    }

    /** Any finite sequence of settings, loads, condition changes and evaluations, then a full evaluation. */
    method Run(steps: seq<Step>, order: seq<nat>)
      requires Inv() && (forall k :: 0 <= k < |order| ==> order[k] < count)
      requires forall i: nat :: i < count ==> i in order
      requires forall k :: 0 <= k < |steps| ==> Fits(steps[k])
      modifies this
      ensures Inv() && ExactlyOne() && DueIsYes()
    {
      for k := 0 to |steps|
        invariant Inv()
      {
        match steps[k]
        case Conditions(cc, mc, dc) => ChangeConditions(cc, mc, dc);
        case Calculate(i) => CalcMember(i);
        case Member(i, val) =>
          CalcMember(i);
          var _ := SetMember(i, val);
        case Mode(val) =>
          CalcChoice();
          var _ := SetChoice(val);
        case Loaded(member, flag, tri, flags, tris) => Load(member, flag, tri, flags, tris);
      }
      CalcAll(order);
    }

    /** The step speaks of members this choice has. */
    predicate Fits(s: Step) {
      match s
      case Conditions(_, mc, dc) => |mc| == count && |dc| == |defaultMembers|
      case Calculate(i) => i < count
      case Member(i, _) => i < count
      case Mode(_) => true
      case Loaded(member, _, _, flags, tris) =>
        (member.Some? ==> member.value < count) && |flags| == count && |tris| == count
    }
  }

  datatype Step =
    | Conditions(cc: Tristate, mc: seq<Tristate>, dc: seq<Tristate>)
    | Calculate(i: nat)
    | Member(i: nat, val: Tristate)
    | Mode(val: Tristate)
    | Loaded(member: Option<nat>, flag: bool, tri: Tristate, flags: seq<bool>, tris: seq<Tristate>)
}
