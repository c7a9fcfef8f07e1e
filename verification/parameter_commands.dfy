/**
 * The `getParameter` and `setParameter` commands over the registry of server
 * parameters. The registry is a `std::map` from name to parameter; what a parameter
 * does when set or shown is supplied by the caller as `apply` and `show`, so the
 * commands are stated for every kind of parameter at once.
 */
module ParameterCommands {
  import opened Wrappers
  import opened ErrorCodes
  import opened Bson
  import opened SortedMap

  /** What the commands need to know of a registered parameter. */
  datatype Parameter = Parameter(allowedToChangeAtRuntime: bool)

  type Registry = seq<Entry<Parameter>>

  datatype SetError =
    | Unrecognized(name: string)
    | NotAllowedAtRuntime(name: string)
    | SetTwice(name: string)
    | NoLongerAvailable(name: string)
    | NothingToSet

  /** SetOk carries the "was" field: the first parameter's value before the command. */
  datatype SetReply = SetOk(was: Option<Element>) | SetRejected(error: SetError) | SetFailed(status: Status)

  datatype SetOutcome<S> = SetOutcome(reply: SetReply, state: S)

  datatype GetReply = Got(fields: seq<Field>) | NothingToGet

  // ---------------------------------------------------------------- setParameter

  /**
   * The error the first validation pass raises at argument `i`, given that no
   * earlier argument raised one; None if the argument passes.
   */
  function Offence(reg: Registry, generic: set<string>, args: seq<Field>, i: int): (r: Option<SetError>)
    requires 0 <= i < |args|
  {
    var name := args[i].name;
    if name in generic then None
    else match Find(reg, name)
      case None => Some(Unrecognized(name))
      case Some(p) =>
        if !p.allowedToChangeAtRuntime then Some(NotAllowedAtRuntime(name))
        else if exists j :: 0 <= j < i && args[j].name == name then Some(SetTwice(name))
        else None
  }

  /** The non-generic names among the first `i` arguments. */
  function NamesBefore(generic: set<string>, args: seq<Field>, i: int): set<string>
    requires 0 <= i <= |args|
  {
    set j | 0 <= j < i && args[j].name !in generic :: args[j].name
  }

  /** `acc` is `parametersToSet` after the first `i` arguments passed validation. */
  predicate Represents(generic: set<string>, args: seq<Field>, i: int, acc: seq<Entry<Element>>)
    requires 0 <= i <= |args|
  {
    && Sorted(acc)
    && Keys(acc) == NamesBefore(generic, args, i)
    && forall j :: 0 <= j < i && args[j].name !in generic ==> Find(acc, args[j].name) == Some(args[j].value)
  }

  /** The first pass: check `args[i..]`, collecting the accepted ones into `acc`. */
  function ValidateFrom(reg: Registry, generic: set<string>, args: seq<Field>, i: int, acc: seq<Entry<Element>>)
    : Result<seq<Entry<Element>>, SetError>
    requires 0 <= i <= |args|
    decreases |args| - i
  {
    if i == |args| then Success(acc)
    else
      var name := args[i].name;
      if name in generic then ValidateFrom(reg, generic, args, i + 1, acc)
      else match Find(reg, name)
        case None => Failure(Unrecognized(name))
        case Some(p) =>
          if !p.allowedToChangeAtRuntime then Failure(NotAllowedAtRuntime(name))
          else if Find(acc, name).Some? then Failure(SetTwice(name))
          else ValidateFrom(reg, generic, args, i + 1, Insert(acc, name, args[i].value))
  }

  function Validate(reg: Registry, generic: set<string>, args: seq<Field>): Result<seq<Entry<Element>>, SetError> {
    ValidateFrom(reg, generic, args, 0, [])
  }

  lemma NamesBeforeStep(generic: set<string>, args: seq<Field>, i: int)
    requires 0 <= i < |args|
    ensures args[i].name in generic ==> NamesBefore(generic, args, i + 1) == NamesBefore(generic, args, i)
    ensures args[i].name !in generic ==> NamesBefore(generic, args, i + 1) == NamesBefore(generic, args, i) + {args[i].name}
  {
  }

  /** `r` reports the first offence among `args[i..]`, or success if there is none. */
  predicate ReportsFirstOffence(reg: Registry, generic: set<string>, args: seq<Field>, i: int,
                                r: Result<seq<Entry<Element>>, SetError>)
    requires 0 <= i <= |args|
  {
    && (r.Success? <==> forall j :: i <= j < |args| ==> Offence(reg, generic, args, j).None?)
    && (r.Failure? ==> exists j :: i <= j < |args| && Offence(reg, generic, args, j) == Some(r.error)
                                   && forall k :: i <= k < j ==> Offence(reg, generic, args, k).None?)
  }

  lemma ReportsFirstOffenceShift(reg: Registry, generic: set<string>, args: seq<Field>, i: int,
                                 r: Result<seq<Entry<Element>>, SetError>)
    requires 0 <= i < |args| && Offence(reg, generic, args, i).None?
    requires ReportsFirstOffence(reg, generic, args, i + 1, r)
    ensures ReportsFirstOffence(reg, generic, args, i, r)
  {
    if r.Failure? {
      var j :| i + 1 <= j < |args| && Offence(reg, generic, args, j) == Some(r.error)
               && forall k :: i + 1 <= k < j ==> Offence(reg, generic, args, k).None?;
      assert forall k :: i <= k < j ==> Offence(reg, generic, args, k).None?;
    }
  }

  /** After an accepted argument, its name and every earlier one map to their values. */
  lemma RepresentsStepValues(generic: set<string>, args: seq<Field>, i: int, acc: seq<Entry<Element>>)
    requires 0 <= i < |args| && Represents(generic, args, i, acc)
    requires args[i].name !in generic && Find(acc, args[i].name).None?
    ensures forall j :: 0 <= j < i + 1 && args[j].name !in generic ==>
      Find(Insert(acc, args[i].name, args[i].value), args[j].name) == Some(args[j].value)
  {
    var name, v := args[i].name, args[i].value;
    InsertContents(acc, name, v);
    forall j | 0 <= j < i + 1 && args[j].name !in generic
      ensures Find(Insert(acc, name, v), args[j].name) == Some(args[j].value)
    {
      if j < i {
        assert Find(acc, args[j].name) == Some(args[j].value);
        assert args[j].name != name;
      }
    }
  }

  /** An accepted argument extends the collected map to represent one more argument. */
  lemma RepresentsStep(generic: set<string>, args: seq<Field>, i: int, acc: seq<Entry<Element>>)
    requires 0 <= i < |args| && Represents(generic, args, i, acc)
    requires args[i].name !in generic && Find(acc, args[i].name).None?
    ensures Represents(generic, args, i + 1, Insert(acc, args[i].name, args[i].value))
  {
    var name, v := args[i].name, args[i].value;
    NamesBeforeStep(generic, args, i);
    InsertContents(acc, name, v);
    InsertSorted(acc, name, v);
    RepresentsStepValues(generic, args, i, acc);
  }

  /** The collected map already holds a non-generic name iff an earlier argument gave it. */
  lemma SeenBefore(generic: set<string>, args: seq<Field>, i: int, acc: seq<Entry<Element>>)
    requires 0 <= i < |args| && Represents(generic, args, i, acc)
    requires args[i].name !in generic
    ensures Find(acc, args[i].name).Some? <==> exists j :: 0 <= j < i && args[j].name == args[i].name
  {
    var name := args[i].name;
    if exists j :: 0 <= j < i && args[j].name == name {
      var j :| 0 <= j < i && args[j].name == name;
      assert name in NamesBefore(generic, args, i);
    }
  }

  lemma {:induction false} ValidateFromSpec(reg: Registry, generic: set<string>, args: seq<Field>, i: int, acc: seq<Entry<Element>>)
    requires 0 <= i <= |args| && Represents(generic, args, i, acc)
    ensures ReportsFirstOffence(reg, generic, args, i, ValidateFrom(reg, generic, args, i, acc))
    ensures ValidateFrom(reg, generic, args, i, acc).Success? ==>
      Represents(generic, args, |args|, ValidateFrom(reg, generic, args, i, acc).value)
    decreases |args| - i
  {
    if i < |args| {
      var name := args[i].name;
      var r := ValidateFrom(reg, generic, args, i, acc);
      if name in generic {
        ValidateFromSpec(reg, generic, args, i + 1, acc);
        ReportsFirstOffenceShift(reg, generic, args, i, r);
      } else if Find(reg, name).Some? && Find(reg, name).value.allowedToChangeAtRuntime {
        SeenBefore(generic, args, i, acc);
        if Find(acc, name).Some? {
          assert r == Failure(SetTwice(name));
          assert Offence(reg, generic, args, i) == Some(SetTwice(name));
        } else {
          RepresentsStep(generic, args, i, acc);
          ValidateFromSpec(reg, generic, args, i + 1, Insert(acc, name, args[i].value));
          assert r == ValidateFrom(reg, generic, args, i + 1, Insert(acc, name, args[i].value));
          ReportsFirstOffenceShift(reg, generic, args, i, r);
        }
      } else {
        assert r.Failure? && Offence(reg, generic, args, i) == Some(r.error);
      }
    }
  }

  /**
   * The first pass accepts exactly when no argument offends, and then holds every
   * non-generic argument under its name, sorted; otherwise it reports the first
   * offending argument.
   */
  lemma ValidateSpec(reg: Registry, generic: set<string>, args: seq<Field>)
    ensures var r := Validate(reg, generic, args);
      && (r.Success? <==> forall j :: 0 <= j < |args| ==> Offence(reg, generic, args, j).None?)
      && (r.Success? ==> Sorted(r.value) && Keys(r.value) == NamesBefore(generic, args, |args|))
      && (r.Success? ==> forall j :: 0 <= j < |args| && args[j].name !in generic ==>
                                      Find(r.value, args[j].name) == Some(args[j].value))
      && (r.Failure? ==> exists j :: 0 <= j < |args| && Offence(reg, generic, args, j) == Some(r.error)
                                      && forall k :: 0 <= k < j ==> Offence(reg, generic, args, k).None?)
  {
    ValidateFromSpec(reg, generic, args, 0, []);
  }

  /** Apply `entries` in order assuming each succeeds: the state after them all. */
  function Replay<S>(s: S, entries: seq<Entry<Element>>, apply: (S, string, Element) -> Applied<S>): S
    decreases |entries|
  {
    if entries == [] then s
    else Replay(apply(s, entries[0].key, entries[0].value).state, entries[1..], apply)
  }

  /** Every one of `entries`, applied in order from `s`, reports OK. */
  predicate AllSucceed<S>(s: S, entries: seq<Entry<Element>>, apply: (S, string, Element) -> Applied<S>)
    decreases |entries|
  {
    entries != [] ==>
      var a := apply(s, entries[0].key, entries[0].value);
      a.status.IsOK() && AllSucceed(a.state, entries[1..], apply)
  }

  /** The second pass: set each accepted parameter in key order, stopping at the first failure. */
  function ApplyFrom<S>(reg: Registry, entries: seq<Entry<Element>>, s: S, numSet: nat, was: Option<Element>,
                        apply: (S, string, Element) -> Applied<S>, show: (S, string) -> Option<Element>)
    : SetOutcome<S>
    decreases |entries|
  {
    if entries == [] then
      if numSet == 0 then SetOutcome(SetRejected(NothingToSet), s) else SetOutcome(SetOk(was), s)
    else
      var name := entries[0].key;
      match Find(reg, name)
      case None => SetOutcome(SetRejected(NoLongerAvailable(name)), s)
      case Some(_) =>
        var was' := if numSet == 0 then show(s, name) else was;
        var a := apply(s, name, entries[0].value);
        if !a.status.IsOK() then SetOutcome(SetFailed(a.status), a.state)
        else ApplyFrom(reg, entries[1..], a.state, numSet + 1, was', apply, show)
  }

  /** One step of the second pass: a registered entry whose setter fails ends the command. */
  lemma ApplyFromStops<S>(reg: Registry, entries: seq<Entry<Element>>, s: S, numSet: nat, was: Option<Element>,
                          apply: (S, string, Element) -> Applied<S>, show: (S, string) -> Option<Element>)
    requires entries != [] && Find(reg, entries[0].key).Some?
    requires !apply(s, entries[0].key, entries[0].value).status.IsOK()
    ensures var a := apply(s, entries[0].key, entries[0].value);
      ApplyFrom(reg, entries, s, numSet, was, apply, show) == SetOutcome(SetFailed(a.status), a.state)
  {
  }

  /** One step of the second pass: a registered entry whose setter succeeds moves on. */
  lemma ApplyFromContinues<S>(reg: Registry, entries: seq<Entry<Element>>, s: S, numSet: nat, was: Option<Element>,
                              apply: (S, string, Element) -> Applied<S>, show: (S, string) -> Option<Element>)
    requires entries != [] && Find(reg, entries[0].key).Some?
    requires apply(s, entries[0].key, entries[0].value).status.IsOK()
    ensures var a := apply(s, entries[0].key, entries[0].value);
      var was' := if numSet == 0 then show(s, entries[0].key) else was;
      ApplyFrom(reg, entries, s, numSet, was, apply, show)
      == ApplyFrom(reg, entries[1..], a.state, numSet + 1, was', apply, show)
  {
  }

  /** Two registered entries where the first setter succeeds and the second fails. */
  lemma ApplyTwoStops<S>(reg: Registry, e0: Entry<Element>, e1: Entry<Element>, s: S,
                         apply: (S, string, Element) -> Applied<S>, show: (S, string) -> Option<Element>)
    requires Find(reg, e0.key).Some? && Find(reg, e1.key).Some?
    requires apply(s, e0.key, e0.value).status.IsOK()
    requires !apply(apply(s, e0.key, e0.value).state, e1.key, e1.value).status.IsOK()
    ensures var b := apply(apply(s, e0.key, e0.value).state, e1.key, e1.value);
      ApplyFrom(reg, [e0, e1], s, 0, None, apply, show) == SetOutcome(SetFailed(b.status), b.state)
  {
    var a := apply(s, e0.key, e0.value);
    ApplyFromContinues(reg, [e0, e1], s, 0, None, apply, show);
    assert [e0, e1][1..] == [e1];
    ApplyFromStops(reg, [e1], a.state, 1, show(s, e0.key), apply, show);
  }

  /** Succeeding on the first entry and then on k more is succeeding on the first k + 1. */
  lemma SucceedThenShift<S>(s: S, entries: seq<Entry<Element>>, k: nat, apply: (S, string, Element) -> Applied<S>)
    requires k + 1 < |entries|
    requires apply(s, entries[0].key, entries[0].value).status.IsOK()
    requires AllSucceed(apply(s, entries[0].key, entries[0].value).state, entries[1..][..k], apply)
    ensures AllSucceed(s, entries[..k + 1], apply)
    ensures Replay(s, entries[..k + 1], apply)
            == Replay(apply(s, entries[0].key, entries[0].value).state, entries[1..][..k], apply)
    ensures entries[1..][k] == entries[k + 1]
  {
    assert entries[..k + 1][1..] == entries[1..][..k];
    assert entries[..k + 1][0] == entries[0];
  }

  /**
   * The second pass sets the entries in order. If all succeed the state is their
   * replay; if the k-th fails, the command fails with its status and keeps the
   * effect of the first k (nothing is rolled back).
   */
  lemma {:induction false} ApplyFromSpec<S>(reg: Registry, entries: seq<Entry<Element>>, s: S, numSet: nat, was: Option<Element>,
                                            apply: (S, string, Element) -> Applied<S>, show: (S, string) -> Option<Element>)
    requires Keys(entries) <= Keys(reg)
    requires numSet > 0 || entries != []
    ensures var r := ApplyFrom(reg, entries, s, numSet, was, apply, show);
      && !r.reply.SetRejected?
      && (r.reply.SetOk? <==> AllSucceed(s, entries, apply))
      && (r.reply.SetOk? ==> r.state == Replay(s, entries, apply))
      && (r.reply.SetOk? && numSet == 0 ==> r.reply.was == show(s, entries[0].key))
      && (r.reply.SetOk? && numSet > 0 ==> r.reply.was == was)
      && (r.reply.SetFailed? ==>
            exists k :: 0 <= k < |entries|
              && AllSucceed(s, entries[..k], apply)
              && var before := Replay(s, entries[..k], apply);
                 var a := apply(before, entries[k].key, entries[k].value);
                 !a.status.IsOK() && r.reply.status == a.status && r.state == a.state)
    decreases |entries|
  {
    if entries != [] {
      KeysCons(entries);
      assert entries[0].key in Keys(reg);
      var a := apply(s, entries[0].key, entries[0].value);
      if a.status.IsOK() {
        var was' := if numSet == 0 then show(s, entries[0].key) else was;
        if entries[1..] != [] {
          ApplyFromSpec(reg, entries[1..], a.state, numSet + 1, was', apply, show);
          var r := ApplyFrom(reg, entries, s, numSet, was, apply, show);
          if r.reply.SetFailed? {
            var k :| 0 <= k < |entries[1..]|
              && AllSucceed(a.state, entries[1..][..k], apply)
              && var before := Replay(a.state, entries[1..][..k], apply);
                 var a' := apply(before, entries[1..][k].key, entries[1..][k].value);
                 !a'.status.IsOK() && r.reply.status == a'.status && r.state == a'.state;
            SucceedThenShift(s, entries, k, apply);
          }
        }
      } else {
        assert entries[..0] == [];
      }
    }
  }

  /**
   * `setParameter`: `cmd[0]` is the command name itself; every other field names
   * a parameter and its new value.
   */
  function SetParameter<S>(reg: Registry, generic: set<string>, cmd: seq<Field>, s: S,
                           apply: (S, string, Element) -> Applied<S>, show: (S, string) -> Option<Element>)
    : SetOutcome<S>
    requires |cmd| > 0
  {
    match Validate(reg, generic, cmd[1..])
    case Failure(e) => SetOutcome(SetRejected(e), s)
    case Success(entries) => ApplyFrom(reg, entries, s, 0, None, apply, show)
  }

  /**
   * The contract of `setParameter`.
   * - A validation error (unknown name, not changeable at runtime, given twice)
   *   reports the first offending argument and changes nothing.
   * - With no non-generic argument the command fails with "nothing to set" and
   *   changes nothing.
   * - Otherwise the accepted arguments are set once each, in key order; the reply
   *   is OK with the old value of the least key iff every set succeeds, and a
   *   failure keeps what was set before it.
   */
  lemma SetParameterSpec<S>(reg: Registry, generic: set<string>, cmd: seq<Field>, s: S,
                            apply: (S, string, Element) -> Applied<S>, show: (S, string) -> Option<Element>)
    requires |cmd| > 0
    ensures var args := cmd[1..];
      var r := SetParameter(reg, generic, cmd, s, apply, show);
      var v := Validate(reg, generic, args);
      && (r.reply.SetRejected? ==> r.state == s)
      && (r.reply.SetRejected? && !r.reply.error.NothingToSet? <==> exists j :: 0 <= j < |args| && Offence(reg, generic, args, j).Some?)
      && (r.reply.SetRejected? && !r.reply.error.NothingToSet? ==>
            exists j :: 0 <= j < |args| && Offence(reg, generic, args, j) == Some(r.reply.error)
                        && forall k :: 0 <= k < j ==> Offence(reg, generic, args, k).None?)
      && (r.reply == SetRejected(NothingToSet) <==>
            (forall j :: 0 <= j < |args| ==> Offence(reg, generic, args, j).None?) && NamesBefore(generic, args, |args|) == {})
      && (!r.reply.SetRejected? ==>
            && v.Success? && Sorted(v.value) && Keys(v.value) == NamesBefore(generic, args, |args|)
            && (forall j :: 0 <= j < |args| && args[j].name !in generic ==> Find(v.value, args[j].name) == Some(args[j].value))
            && (r.reply.SetOk? <==> AllSucceed(s, v.value, apply))
            && (r.reply.SetOk? ==> r.state == Replay(s, v.value, apply) && r.reply.was == show(s, v.value[0].key))
            && (r.reply.SetFailed? ==>
                  exists k :: 0 <= k < |v.value|
                    && AllSucceed(s, v.value[..k], apply)
                    && var before := Replay(s, v.value[..k], apply);
                       var a := apply(before, v.value[k].key, v.value[k].value);
                       !a.status.IsOK() && r.reply.status == a.status && r.state == a.state))
  {
    var args := cmd[1..];
    ValidateSpec(reg, generic, args);
    var v := Validate(reg, generic, args);
    if v.Success? {
      var entries := v.value;
      if entries == [] {
        assert Keys(entries) == {};
      } else {
        assert entries[0].key in Keys(entries);
        forall x | x in Keys(entries) ensures x in Keys(reg) {
          var j :| 0 <= j < |args| && args[j].name !in generic && args[j].name == x;
          assert Offence(reg, generic, args, j).None?;
        }
        ApplyFromSpec(reg, entries, s, 0, None, apply, show);
      }
    }
  }

  // ---------------------------------------------------------------- getParameter

  /** `'*'` as the first character of the first field's string value selects everything. */
  predicate SelectsAll(cmd: seq<Field>) {
    |cmd| > 0 && cmd[0].value.EString? && |cmd[0].value.s| > 0 && cmd[0].value.s[0] == '*'
  }

  predicate Selected(cmd: seq<Field>, name: string) {
    SelectsAll(cmd) || HasElement(cmd, name)
  }

  /** Append, in registry order, each selected parameter that shows a value. */
  function Gather<S>(reg: Registry, cmd: seq<Field>, s: S, show: (S, string) -> Option<Element>): seq<Field>
    decreases |reg|
  {
    if reg == [] then []
    else
      var name := reg[0].key;
      var rest := Gather(reg[1..], cmd, s, show);
      if Selected(cmd, name) && show(s, name).Some? then [Field(name, show(s, name).value)] + rest else rest
  }

  /** A field is gathered iff its name is registered and selected and shows that value. */
  lemma {:induction false} GatherContents<S>(reg: Registry, cmd: seq<Field>, s: S, show: (S, string) -> Option<Element>)
    ensures forall f :: f in Gather(reg, cmd, s, show) <==>
      exists i :: 0 <= i < |reg| && reg[i].key == f.name && Selected(cmd, f.name) && show(s, f.name) == Some(f.value)
    decreases |reg|
  {
    if reg != [] {
      GatherContents(reg[1..], cmd, s, show);
      var r := Gather(reg, cmd, s, show);
      var rest := Gather(reg[1..], cmd, s, show);
      forall f | f in r
        ensures exists i :: 0 <= i < |reg| && reg[i].key == f.name && Selected(cmd, f.name) && show(s, f.name) == Some(f.value)
      {
        if f !in rest {
          assert reg[0].key == f.name;
        } else {
          var i :| 0 <= i < |reg[1..]| && reg[1..][i].key == f.name && Selected(cmd, f.name) && show(s, f.name) == Some(f.value);
          assert reg[i + 1].key == f.name;
        }
      }
      forall f: Field | exists i :: 0 <= i < |reg| && reg[i].key == f.name && Selected(cmd, f.name) && show(s, f.name) == Some(f.value)
        ensures f in r
      {
        var i :| 0 <= i < |reg| && reg[i].key == f.name && Selected(cmd, f.name) && show(s, f.name) == Some(f.value);
        if i > 0 {
          assert reg[1..][i - 1].key == f.name;
        }
      }
    }
  }

  /** Gathered fields carry registered names, in registry order. */
  /** Every gathered name is registered. */
  lemma {:induction false} GatherRegistered<S>(reg: Registry, cmd: seq<Field>, s: S, show: (S, string) -> Option<Element>)
    ensures var r := Gather(reg, cmd, s, show);
      && |r| <= |reg|
      && forall j :: 0 <= j < |r| ==> exists i :: 0 <= i < |reg| && reg[i].key == r[j].name
    decreases |reg|
  {
    if reg != [] {
      GatherRegistered(reg[1..], cmd, s, show);
      var r := Gather(reg, cmd, s, show);
      var rest := Gather(reg[1..], cmd, s, show);
      forall j | 0 <= j < |r| ensures exists i :: 0 <= i < |reg| && reg[i].key == r[j].name {
        if r != rest && j == 0 {
          assert reg[0].key == r[j].name;
        } else {
          var jj := if r != rest then j - 1 else j;
          assert r[j] == rest[jj];
          var i :| 0 <= i < |reg[1..]| && reg[1..][i].key == rest[jj].name;
          assert reg[i + 1].key == r[j].name;
        }
      }
    }
  }

  /** From a sorted registry the gathered names come out strictly increasing. */
  lemma {:induction false} GatherSorted<S>(reg: Registry, cmd: seq<Field>, s: S, show: (S, string) -> Option<Element>)
    requires Sorted(reg)
    ensures var r := Gather(reg, cmd, s, show);
      forall j, k :: 0 <= j < k < |r| ==> StringOrder.Less(r[j].name, r[k].name)
    decreases |reg|
  {
    if reg != [] {
      assert Sorted(reg[1..]);
      GatherSorted(reg[1..], cmd, s, show);
      var r := Gather(reg, cmd, s, show);
      var rest := Gather(reg[1..], cmd, s, show);
      if r != rest {
        GatherRegistered(reg[1..], cmd, s, show);
        forall k | 0 < k < |r| ensures StringOrder.Less(r[0].name, r[k].name) {
          assert r[k] == rest[k - 1];
          var i :| 0 <= i < |reg[1..]| && reg[1..][i].key == rest[k - 1].name;
          assert reg[i + 1].key == r[k].name;
          assert r[0].name == reg[0].key;
        }
        forall j, k | 0 <= j < k < |r| ensures StringOrder.Less(r[j].name, r[k].name) {
          if j > 0 {
            assert r[j] == rest[j - 1] && r[k] == rest[k - 1];
          }
        }
      }
    }
  }

  /** Gathered names are registered, and a sorted registry yields them in its order. */
  lemma GatherOrder<S>(reg: Registry, cmd: seq<Field>, s: S, show: (S, string) -> Option<Element>)
    ensures var r := Gather(reg, cmd, s, show);
      && |r| <= |reg|
      && (forall j :: 0 <= j < |r| ==> exists i :: 0 <= i < |reg| && reg[i].key == r[j].name)
      && (Sorted(reg) ==> forall j, k :: 0 <= j < k < |r| ==> StringOrder.Less(r[j].name, r[k].name))
  {
    GatherRegistered(reg, cmd, s, show);
    if Sorted(reg) {
      GatherSorted(reg, cmd, s, show);
    }
  }

  /**
   * `getParameter`: the selected parameters' values in registry order; the command
   * fails iff nothing was appended.
   */
  function GetParameter<S>(reg: Registry, cmd: seq<Field>, s: S, show: (S, string) -> Option<Element>): (r: GetReply)
    ensures r.NothingToGet? <==> forall i :: 0 <= i < |reg| && Selected(cmd, reg[i].key) ==> show(s, reg[i].key).None?
    ensures r.Got? ==> |r.fields| > 0 && forall f :: f in r.fields <==>
      exists i :: 0 <= i < |reg| && reg[i].key == f.name && Selected(cmd, f.name) && show(s, f.name) == Some(f.value)
    ensures r.Got? && Sorted(reg) ==> forall j, k :: 0 <= j < k < |r.fields| ==> StringOrder.Less(r.fields[j].name, r.fields[k].name)
  {
    var fields := Gather(reg, cmd, s, show);
    GatherContents(reg, cmd, s, show);
    GatherOrder(reg, cmd, s, show);
    assert fields != [] ==> fields[0] in fields;
    assert fields == [] ==> forall i :: 0 <= i < |reg| && Selected(cmd, reg[i].key) ==> show(s, reg[i].key).None? by {
      if fields == [] {
        forall i | 0 <= i < |reg| && Selected(cmd, reg[i].key) ensures show(s, reg[i].key).None? {
          var f := Field(reg[i].key, if show(s, reg[i].key).Some? then show(s, reg[i].key).value else EOther);
          assert f !in fields;
        }
      }
    }
    if fields == [] then NothingToGet else Got(fields)
  }
}
