/**
 * The `actions` column of an ACE row: a comma-joined list of action names
 * that each grant extends by one name. Nothing removes duplicates.
 */
module Actions {

  /** The actions granted, one transaction each, for every principal-resource pair. */
  const Granted: seq<string> := ["create", "read", "update", "delete"]

  /** The column a pair ends up with after its four grants, starting from no row. */
  const FullColumn: string := "create,read,update,delete"

  /** A single action name, as the column stores it between commas. */
  predicate IsActionName(a: string) {
    a != "" && ',' !in a
  }

  /**
   * The new value of the column when `action` is granted and the row read
   * held `actionstr` ("" when no row was found): append with a comma, or
   * start a fresh list.
   */
  function AppendAction(actionstr: string, action: string): string {
    if |actionstr| > 0 then actionstr + "," + action else action
  }

  /** strings.Split(s, ","): the pieces between commas; never empty. */
  function Split(s: string): (pieces: seq<string>)
    ensures |pieces| >= 1
  {
    if s == [] then [""]
    else
      var rest := Split(s[1..]);
      if s[0] == ',' then [""] + rest
      else [[s[0]] + rest[0]] + rest[1..]
  }

  /** The action names the column lists; the empty column lists none. */
  function ActionList(s: string): seq<string> {
    if s == "" then [] else Split(s)
  }

  /** The column after granting each of `actions` in turn. */
  function GrantAll(actionstr: string, actions: seq<string>): string
    decreases |actions|
  {
    if actions == [] then actionstr
    else GrantAll(AppendAction(actionstr, actions[0]), actions[1..])
  }

  /** A string without commas is a single piece. */
  lemma {:induction false} SplitSingle(a: string)
    requires ',' !in a
    ensures Split(a) == [a]
  {
    if a != [] {
      SplitSingle(a[1..]);
      assert [a[0]] + a[1..] == a;
    }
  }

  /** Appending ",a" to the text appends the piece a. */
  lemma {:induction false} SplitAppend(s: string, a: string)
    requires ',' !in a
    ensures Split(s + "," + a) == Split(s) + [a]
  {
    if s == [] {
      assert s + "," + a == [','] + a;
      assert ([','] + a)[1..] == a;
      SplitSingle(a);
    } else {
      assert (s + "," + a)[1..] == s[1..] + "," + a;
      SplitAppend(s[1..], a);
    }
  }

  /** One grant adds exactly one name at the end of the list. */
  lemma AppendActionList(actionstr: string, action: string)
    requires IsActionName(action)
    ensures ActionList(AppendAction(actionstr, action)) == ActionList(actionstr) + [action]
  {
    if actionstr == "" {
      SplitSingle(action);
    } else {
      SplitAppend(actionstr, action);
    }
  }

  /** Granting a list of names appends all of them, in order, duplicates included. */
  lemma {:induction false} GrantAllList(actionstr: string, actions: seq<string>)
    requires forall i :: 0 <= i < |actions| ==> IsActionName(actions[i])
    ensures ActionList(GrantAll(actionstr, actions)) == ActionList(actionstr) + actions
    decreases |actions|
  {
    if actions != [] {
      AppendActionList(actionstr, actions[0]);
      GrantAllList(AppendAction(actionstr, actions[0]), actions[1..]);
      ConsAssoc(ActionList(actionstr), actions);
    }
  }

  /** Moving the head of a non-empty sequence across a concatenation. */
  lemma ConsAssoc<T>(a: seq<T>, b: seq<T>)
    requires b != []
    ensures a + b == (a + [b[0]]) + b[1..]
  {
    assert b == [b[0]] + b[1..];
  }

  /** A grant never empties the column. */
  lemma {:induction false} GrantAllNonEmpty(actionstr: string, actions: seq<string>)
    requires forall i :: 0 <= i < |actions| ==> IsActionName(actions[i])
    ensures actions != [] || actionstr != "" ==> GrantAll(actionstr, actions) != ""
    decreases |actions|
  {
    if actions != [] {
      GrantAllNonEmpty(AppendAction(actionstr, actions[0]), actions[1..]);
    }
  }

  /** The four grants spelled out, from any starting column. */
  lemma GrantedSteps(actionstr: string)
    ensures GrantAll(actionstr, Granted)
      == AppendAction(AppendAction(AppendAction(AppendAction(actionstr, "create"), "read"), "update"), "delete")
  {
    var rest := Granted[1..];
    assert rest == ["read", "update", "delete"];
    assert rest[1..] == ["update", "delete"];
    assert rest[1..][1..] == ["delete"];
    assert rest[1..][1..][1..] == [];
  }

  /** The four grants of a pair with no row leave "create,read,update,delete". */
  lemma GrantedFromEmpty()
    ensures GrantAll("", Granted) == FullColumn
  {
    GrantedSteps("");
    assert AppendAction("", "create") == "create";
    assert AppendAction("create", "read") == "create,read";
    assert AppendAction("create,read", "update") == "create,read,update";
    assert AppendAction("create,read,update", "delete") == "create,read,update,delete";
  }

  /** Grants act on the end of the column only; a prefix is carried along. */
  lemma {:induction false} GrantAllAfter(prefix: string, s: string, actions: seq<string>)
    requires s != ""
    ensures GrantAll(prefix + s, actions) == prefix + GrantAll(s, actions)
    decreases |actions|
  {
    if actions != [] {
      assert AppendAction(prefix + s, actions[0]) == prefix + AppendAction(s, actions[0]);
      GrantAllAfter(prefix, AppendAction(s, actions[0]), actions[1..]);
    }
  }

  /** Granting to a non-empty column appends "," and what the same grants give from no row. */
  lemma GrantAllJoin(actionstr: string, actions: seq<string>)
    requires actionstr != "" && actions != [] && actions[0] != ""
    ensures GrantAll(actionstr, actions) == actionstr + "," + GrantAll("", actions)
  {
    GrantAllAfter(actionstr + ",", actions[0], actions[1..]);
  }

  /** On a non-empty column the four names are appended, even when they are already listed. */
  lemma GrantedAppended(actionstr: string)
    requires actionstr != ""
    ensures GrantAll(actionstr, Granted) == actionstr + "," + FullColumn
  {
    GrantAllJoin(actionstr, Granted);
    GrantedFromEmpty();
  }

  /** The list the column holds after the four grants. */
  lemma GrantedList(actionstr: string)
    ensures ActionList(GrantAll(actionstr, Granted)) == ActionList(actionstr) + Granted
  {
    assert forall i :: 0 <= i < |Granted| ==> IsActionName(Granted[i]);
    GrantAllList(actionstr, Granted);
  }

  /** Granting the four actions twice lists each of them twice. */
  lemma RepeatedGrantDuplicates()
    ensures ActionList(GrantAll(GrantAll("", Granted), Granted)) == Granted + Granted
  {
    GrantedList("");
    GrantedList(GrantAll("", Granted));
  }
}
