/** The `Script` record that a `ScriptSet` holds, the order the set keeps its
    records in, and the rule by which an incoming record is merged into the
    record it replaces. */
module Scripts {

  /** A reference that may be null. */
  datatype Option<T> = None | Some(value: T)

  /** One parameter descriptor of a script; the registry never looks inside it. */
  datatype Parameter = Parameter(name: string, value: string)

  /** One managed script. Every string field may be empty; `null` strings are
      not modelled (an empty string stands for both). */
  datatype Script = Script(
    id: string,
    name: string,
    comment: string,
    available: bool,
    originCatalog: string,
    originScript: string,
    originDate: string,
    nonAdministerUsing: bool,
    parameters: seq<Parameter>,
    onlyMaster: bool,
    repodir: string)

  /** Lexicographic order on strings, the order of Java's String.compareTo:
      the first differing character decides, and a proper prefix comes first. */
  predicate LexLess(a: string, b: string)
    decreases |a|
  {
    if |a| == 0 then |b| != 0
    else if |b| == 0 then false
    else if a[0] != b[0] then a[0] < b[0]
    else LexLess(a[1..], b[1..])
  }

  lemma {:induction false} LexLessIrreflexive(a: string)
    ensures !LexLess(a, a)
  {
    if |a| != 0 {
      LexLessIrreflexive(a[1..]);
    }
  }

  lemma {:induction false} LexLessTransitive(a: string, b: string, c: string)
    requires LexLess(a, b) && LexLess(b, c)
    ensures LexLess(a, c)
  {
    if |a| != 0 && a[0] == b[0] && b[0] == c[0] {
      LexLessTransitive(a[1..], b[1..], c[1..]);
    }
  }

  lemma LexLessAsymmetric(a: string, b: string)
    requires LexLess(a, b)
    ensures !LexLess(b, a)
  {
    if LexLess(b, a) {
      LexLessTransitive(a, b, a);
      LexLessIrreflexive(a);
    }
  }

  /** The order is total: two different ids are always ordered one way or the other. */
  lemma {:induction false} LexLessTotal(a: string, b: string)
    ensures a == b || LexLess(a, b) || LexLess(b, a)
  {
    if |a| != 0 && |b| != 0 && a[0] == b[0] {
      LexLessTotal(a[1..], b[1..]);
      if a[1..] == b[1..] {
        assert a == [a[0]] + a[1..] && b == [b[0]] + b[1..];
      }
    }
  }

  /** The text-field rule of a merge: the incoming value unless it is empty. */
  function Prefer(incoming: string, origin: string): string {
    if incoming == "" then origin else incoming
  }

  /** The record that replaces `origin` when `incoming` carries the same id:
      the five text fields keep the origin's value where the incoming one is
      empty; id, flags, parameters and repodir always come from `incoming`. */
  function Merge(origin: Script, incoming: Script): Script {
    Script(
      incoming.id,
      Prefer(incoming.name, origin.name),
      Prefer(incoming.comment, origin.comment),
      incoming.available,
      Prefer(incoming.originCatalog, origin.originCatalog),
      Prefer(incoming.originScript, origin.originScript),
      Prefer(incoming.originDate, origin.originDate),
      incoming.nonAdministerUsing,
      incoming.parameters,
      incoming.onlyMaster,
      incoming.repodir)
  }

  /** The merge rule field by field: each text field is the incoming value when
      that is non-empty and the origin's otherwise; all other fields are the
      incoming record's. */
  lemma MergeFields(o: Script, n: Script)
    ensures var r := Merge(o, n);
      && (r.name == if n.name != "" then n.name else o.name)
      && (r.comment == if n.comment != "" then n.comment else o.comment)
      && (r.originCatalog == if n.originCatalog != "" then n.originCatalog else o.originCatalog)
      && (r.originScript == if n.originScript != "" then n.originScript else o.originScript)
      && (r.originDate == if n.originDate != "" then n.originDate else o.originDate)
      && r.id == n.id && r.available == n.available
      && r.nonAdministerUsing == n.nonAdministerUsing && r.parameters == n.parameters
      && r.onlyMaster == n.onlyMaster && r.repodir == n.repodir
  {
  }

  /** A merged text field is empty only when both sides were empty. */
  lemma MergeEmptyOnlyIfBothEmpty(o: Script, n: Script)
    ensures var r := Merge(o, n);
      && (r.name == "" <==> o.name == "" && n.name == "")
      && (r.comment == "" <==> o.comment == "" && n.comment == "")
      && (r.originCatalog == "" <==> o.originCatalog == "" && n.originCatalog == "")
      && (r.originScript == "" <==> o.originScript == "" && n.originScript == "")
      && (r.originDate == "" <==> o.originDate == "" && n.originDate == "")
  {
  }

  /** Merging a record into itself changes nothing. */
  lemma MergeSelf(o: Script)
    ensures Merge(o, o) == o
  {
  }

  /** An incoming record whose text fields are all filled in replaces the origin wholesale. */
  lemma MergeComplete(o: Script, n: Script)
    requires n.name != "" && n.comment != "" && n.originCatalog != ""
    requires n.originScript != "" && n.originDate != ""
    ensures Merge(o, n) == n
  {
  }

  /** Re-applying the same update is harmless: merging `n` twice equals merging it once. */
  lemma MergeReapply(o: Script, n: Script)
    ensures Merge(Merge(o, n), n) == Merge(o, n)
  {
  }

  /** Two successive updates `b` then `c` have the same effect as the single
      update obtained by first merging `c` into `b`. */
  lemma MergeAssociative(a: Script, b: Script, c: Script)
    ensures Merge(Merge(a, b), c) == Merge(a, Merge(b, c))
  {
  }
}
