/** `check_references` of main.py: which trial or publication records
    mention a drug, and the (type, label, date) tuples they give rise to. */
module ReferenceMatcher {
  import opened Text

  /** A trial or publication row `[id, title, date, journal]`. */
  datatype Record = Record(id: string, title: string, date: string, journal: string)

  /** A reference tuple `(type, label, date)` emitted for a matching record. */
  datatype Ref = Ref(kind: string, name: string, date: string)

  /** The test `drug_label.lower() in trial[1].lower()`. */
  predicate MentionsDrug(drug: string, r: Record)
  {
    Contains(Lower(drug), Lower(r.title))
  }

  /** The records that mention the drug, in input order. */
  function Matching(drug: string, data: seq<Record>): (m: seq<Record>)
    ensures |m| <= |data|
    ensures forall x :: x in m ==> x in data && MentionsDrug(drug, x)
    ensures forall i :: 0 <= i < |data| && MentionsDrug(drug, data[i]) ==> data[i] in m
  {
    if |data| == 0 then []
    else
      var last := data[|data| - 1];
      var m := Matching(drug, data[..|data| - 1]);
      assert forall i :: 0 <= i < |data| - 1 ==> data[i] == data[..|data| - 1][i];
      if MentionsDrug(drug, last) then m + [last] else m
  }

  /** A single record is kept exactly when it mentions the drug. */
  lemma MatchingOne(drug: string, x: Record)
    ensures Matching(drug, [x]) == if MentionsDrug(drug, x) then [x] else []
  {
  }

  /** Filtering a concatenation filters each part and concatenates the
      results: the kept records keep their input order and each kept record
      appears once per occurrence in the input. */
  lemma {:induction false} MatchingAppend(drug: string, a: seq<Record>, b: seq<Record>)
    ensures Matching(drug, a + b) == Matching(drug, a) + Matching(drug, b)
    decreases |b|
  {
    if |b| == 0 {
      assert a + b == a;
    } else {
      var front := b[..|b| - 1];
      assert (a + b)[..|a + b| - 1] == a + front;
      assert (a + b)[|a + b| - 1] == b[|b| - 1];
      MatchingAppend(drug, a, front);
    }
  }

  /** The two tuples one matching record contributes. */
  function Pair(r: Record, kind: string): seq<Ref>
  {
    [Ref(kind, r.title, r.date), Ref("journal", r.journal, r.date)]
  }

  /** What `check_references(drug, data, kind)` returns: for each matching
      record, in input order, its `(kind, title, date)` tuple followed by its
      `("journal", journal, date)` tuple. */
  function References(drug: string, data: seq<Record>, kind: string): (refs: seq<Ref>)
    ensures |refs| == 2 * |Matching(drug, data)|
    ensures forall k :: 0 <= k < |Matching(drug, data)| ==>
      refs[2 * k] == Ref(kind, Matching(drug, data)[k].title, Matching(drug, data)[k].date) &&
      refs[2 * k + 1] == Ref("journal", Matching(drug, data)[k].journal, Matching(drug, data)[k].date)
    ensures forall i :: 0 <= i < |refs| ==> refs[i].kind == kind || refs[i].kind == "journal"
  {
    if |data| == 0 then []
    else
      var last := data[|data| - 1];
      var refs := References(drug, data[..|data| - 1], kind);
      if MentionsDrug(drug, last) then refs + Pair(last, kind) else refs
  }

  /** `check_references`: the loop that appends a pair per matching record. */
  method CheckReferences(drug: string, data: seq<Record>, kind: string) returns (refs: seq<Ref>)
    ensures refs == References(drug, data, kind)
  {
    refs := [];
    for i := 0 to |data|
      invariant refs == References(drug, data[..i], kind)
    {
      var trial := data[i];
      if Contains(Lower(drug), Lower(trial.title)) {
        refs := refs + [Ref(kind, trial.title, trial.date)];
        refs := refs + [Ref("journal", trial.journal, trial.date)];
      }
      assert data[..i + 1][..i] == data[..i];
    }
    assert data[..|data|] == data;
  }

  /** No tuple at all comes back exactly when no record mentions the drug. */
  lemma NoMatchNoReferences(drug: string, data: seq<Record>, kind: string)
    ensures References(drug, data, kind) == [] <==> forall i :: 0 <= i < |data| ==> !MentionsDrug(drug, data[i])
  {
    if exists i :: 0 <= i < |data| && MentionsDrug(drug, data[i]) {
      var i :| 0 <= i < |data| && MentionsDrug(drug, data[i]);
      assert data[i] in Matching(drug, data);
    }
  }

  /** An empty drug name matches every record, since `"" in s` always holds. */
  lemma {:induction false} EmptyNameMatchesAll(data: seq<Record>, kind: string)
    ensures Matching("", data) == data
    ensures |References("", data, kind)| == 2 * |data|
  {
    if |data| > 0 {
      EmptyNameMatchesAll(data[..|data| - 1], kind);
      EmptyIsContained(Lower(data[|data| - 1].title));
      assert data[..|data| - 1] + [data[|data| - 1]] == data;
    }
  }

  /** Matching ignores case while the emitted tuple keeps the title verbatim:
      "Aspirin" matches every title that starts with "aspirin", such as
      "aspirin protocol", and the trial tuple carries that title as written. */
  lemma CaseInsensitiveMatch(rest: string, r: Record)
    requires r.title == "aspirin" + rest
    ensures MentionsDrug("Aspirin", r)
    ensures References("Aspirin", [r], "trial") ==
      [Ref("trial", r.title, r.date), Ref("journal", r.journal, r.date)]
  {
    var lowered := Lower(r.title);
    assert Lower("Aspirin") == "aspirin" by {
      assert forall i :: 0 <= i < 7 ==> Lower("Aspirin")[i] == "aspirin"[i];
    }
    assert lowered[..7] == "aspirin" by {
      assert forall i :: 0 <= i < 7 ==> lowered[i] == LowerChar(r.title[i]) == "aspirin"[i];
    }
    assert OccursAt("aspirin", lowered, 0);
    assert [r][..0] == [];
  }
}
