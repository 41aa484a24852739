/**
 * The data logic of the "My assigned policies" list in the manage-policies
 * modal: searching the assigned policies, cutting out the visible page,
 * deciding whether the workload namespace is already protected, collecting the
 * placement controls to unassign, and the state after the batch unassign.
 */
module PolicyListView {
  import opened Wrappers
  import opened JsStrings

  /** Policies shown per page of the list. */
  const COUNT_PER_PAGE_NUMBER := 4

  /** A placement control bound to an assigned policy (DRPlacementControlType). */
  datatype PlacementControl = PlacementControl(name: string, namespace: string)

  /** An assigned data policy (DataPolicyType): its name and the placement controls that use it. */
  datatype DataPolicy = DataPolicy(name: string, placementControlInfo: seq<PlacementControl>)

  /** An eligible DR policy; only its name is consulted. */
  datatype DRPolicy = DRPolicy(name: string)

  /**
   * A discovered-application placement control: the namespaces it protects
   * (`spec.protectedNamespaces`, possibly absent) and the DR policy it refers to.
   */
  datatype DRPlacementControl = DRPlacementControl(protectedNamespaces: Option<seq<string>>, drPolicyRefName: string)

  // ---------------------------------------------------------------------------
  // Search

  /** The search keeps a policy when its lower-cased name includes the search text as typed. */
  predicate MatchesSearch(policy: DataPolicy, searchText: string) {
    Includes(ToLowerCase(policy.name), searchText)
  }

  /** `filterPolicies`: `Array.prototype.filter` with `MatchesSearch`. */
  function FilterPolicies(policies: seq<DataPolicy>, searchText: string): (r: seq<DataPolicy>)
    ensures |r| <= |policies|
    ensures forall p :: p in r ==> p in policies && MatchesSearch(p, searchText)
    ensures forall p :: p in policies && MatchesSearch(p, searchText) ==> p in r
  {
    if policies == [] then []
    else
      (if MatchesSearch(policies[0], searchText) then [policies[0]] else [])
      + FilterPolicies(policies[1..], searchText)
  }

  /** `r` is obtained from `s` by deleting elements, without reordering or repeating any. */
  ghost predicate IsSubsequence<T>(r: seq<T>, s: seq<T>)
    decreases |s|
  {
    r == [] || (s != [] && ((r[0] == s[0] && IsSubsequence(r[1..], s[1..])) || IsSubsequence(r, s[1..])))
  }

  /** The filtered list is a subsequence of the input. */
  lemma {:induction false} FilterIsSubsequence(policies: seq<DataPolicy>, searchText: string)
    ensures IsSubsequence(FilterPolicies(policies, searchText), policies)
  {
    if policies != [] {
      var rest := FilterPolicies(policies[1..], searchText);
      FilterIsSubsequence(policies[1..], searchText);
      if MatchesSearch(policies[0], searchText) {
        assert FilterPolicies(policies, searchText) == [policies[0]] + rest;
        assert ([policies[0]] + rest)[1..] == rest;
      } else {
        assert FilterPolicies(policies, searchText) == rest;
        if rest == [] {
        } else {
          assert IsSubsequence(rest, policies[1..]);
        }
      }
    }
  }

  /** A subsequence neither adds nor duplicates an element. */
  lemma {:induction false} SubsequenceMultiset<T>(r: seq<T>, s: seq<T>)
    requires IsSubsequence(r, s)
    ensures multiset(r) <= multiset(s)
    decreases |s|
  {
    if r != [] {
      if r[0] == s[0] && IsSubsequence(r[1..], s[1..]) {
        SubsequenceMultiset(r[1..], s[1..]);
        assert r == [r[0]] + r[1..];
        assert s == [s[0]] + s[1..];
      } else {
        SubsequenceMultiset(r, s[1..]);
        assert s == [s[0]] + s[1..];
      }
    }
  }

  /** Searching a concatenation searches each part, in order. */
  lemma {:induction false} FilterDistributes(a: seq<DataPolicy>, b: seq<DataPolicy>, searchText: string)
    ensures FilterPolicies(a + b, searchText) == FilterPolicies(a, searchText) + FilterPolicies(b, searchText)
  {
    if a != [] {
      assert (a + b)[1..] == a[1..] + b;
      FilterDistributes(a[1..], b, searchText);
    } else {
      assert a + b == b;
    }
  }

  /** The empty search text keeps every policy. */
  lemma {:induction false} EmptySearchKeepsAll(policies: seq<DataPolicy>)
    ensures FilterPolicies(policies, "") == policies
    ensures |FilterPolicies(policies, "")| == |policies|
  {
    if policies != [] {
      IncludesEmpty(ToLowerCase(policies[0].name));
      EmptySearchKeepsAll(policies[1..]);
    }
  }

  /** The search text is not lower-cased: one holding an upper-case ASCII letter keeps nothing. */
  lemma {:induction false} UppercaseSearchKeepsNothing(policies: seq<DataPolicy>, searchText: string, j: int)
    requires 0 <= j < |searchText| && IsUpperAscii(searchText[j])
    ensures FilterPolicies(policies, searchText) == []
  {
    if policies != [] {
      UpperNotInLowered(policies[0].name, searchText, j);
      UppercaseSearchKeepsNothing(policies[1..], searchText, j);
    }
  }

  // ---------------------------------------------------------------------------
  // Pagination

  /** How `Array.prototype.slice` turns an argument into an index: negative counts from the end, then clamped. */
  function RelativeIndex(k: int, len: nat): (r: nat)
    ensures r <= len
    ensures 0 <= k ==> r == if k < len then k else len
  {
    if k < 0 then (if len + k < 0 then 0 else len + k)
    else if k < len then k
    else len
  }

  /** `s.slice(start, end)`: the elements from index `start` up to, not including, index `end`. */
  function Slice<T>(s: seq<T>, start: int, end: int): (r: seq<T>)
    ensures |r| <= |s|
    ensures 0 <= start <= end ==> |r| <= end - start
  {
    var from, to := RelativeIndex(start, |s|), RelativeIndex(end, |s|);
    if from < to then s[from..to] else []
  }

  /** A slice is a contiguous run of `s`: item `i` of the page is item `start + i` of the list. */
  lemma SliceIsContiguous<T>(s: seq<T>, start: int, end: int)
    requires 0 <= start <= end
    ensures |Slice(s, start, end)| == if start < |s| then (if end < |s| then end else |s|) - start else 0
    ensures forall i :: 0 <= i < |Slice(s, start, end)| ==> Slice(s, start, end)[i] == s[start + i]
  {
  }

  /** What the table shows. */
  datatype PolicyTable = PolicyTable(
    visible: seq<DataPolicy>,       // `paginatedPolicies`
    itemCount: nat,                 // the Pagination widget's `itemCount`
    searchHidden: bool,             // `isSearchHidden`
    emptyState: bool)               // `unFilteredAssignedPolicyLength === 0`

  /**
   * The table of assigned policies for a search text and the page range
   * `[start, end)` that `getPageRange(page, perPage)` produced.
   */
  function PolicyPage(dataPolicyInfo: Option<seq<DataPolicy>>, searchText: Option<string>, start: int, end: int): (t: PolicyTable)
    ensures var all := if dataPolicyInfo.Some? then dataPolicyInfo.value else [];
            var text := if searchText.Some? then searchText.value else "";
            t.itemCount == |FilterPolicies(all, text)|
            && t.visible == Slice(FilterPolicies(all, text), start, end)
    ensures t.searchHidden <==> dataPolicyInfo.None? || dataPolicyInfo.value == []
    ensures t.emptyState <==> dataPolicyInfo.Some? && dataPolicyInfo.value == []
  {
    var all := if dataPolicyInfo.Some? then dataPolicyInfo.value else [];
    var policies := FilterPolicies(all, if searchText.Some? then searchText.value else "");
    PolicyTable(Slice(policies, start, end), |policies|,
      dataPolicyInfo.None? || |dataPolicyInfo.value| == 0,
      dataPolicyInfo.Some? && |dataPolicyInfo.value| == 0)
  }

  /**
   * Without a search every policy is counted, and every visible policy lies
   * within the page; the count is that of the filtered list, not of the input.
   */
  lemma PolicyPageBounds(dataPolicyInfo: seq<DataPolicy>, searchText: Option<string>, start: int, end: int)
    requires 0 <= start <= end
    ensures |PolicyPage(Some(dataPolicyInfo), searchText, start, end).visible| <= end - start
    ensures PolicyPage(Some(dataPolicyInfo), searchText, start, end).itemCount <= |dataPolicyInfo|
    ensures searchText == None || searchText == Some("") ==>
              PolicyPage(Some(dataPolicyInfo), searchText, start, end).itemCount == |dataPolicyInfo|
  {
    EmptySearchKeepsAll(dataPolicyInfo);
  }

  /**
   * Ten policies, no search, four per page: pages [0, 4) and [8, 12) show four
   * and two policies, page [12, 16) shows none, and the count stays ten.
   */
  lemma TenPoliciesFourPerPage(ps: seq<DataPolicy>)
    requires |ps| == 10
    ensures |PolicyPage(Some(ps), Some(""), 0, COUNT_PER_PAGE_NUMBER).visible| == COUNT_PER_PAGE_NUMBER
    ensures PolicyPage(Some(ps), Some(""), 2 * COUNT_PER_PAGE_NUMBER, 3 * COUNT_PER_PAGE_NUMBER).visible == ps[8..]
    ensures PolicyPage(Some(ps), Some(""), 3 * COUNT_PER_PAGE_NUMBER, 4 * COUNT_PER_PAGE_NUMBER).visible == []
    ensures PolicyPage(Some(ps), Some(""), 3 * COUNT_PER_PAGE_NUMBER, 4 * COUNT_PER_PAGE_NUMBER).itemCount == 10
  {
    EmptySearchKeepsAll(ps);
  }

  // ---------------------------------------------------------------------------
  // Namespace protection

  /** `drpcs.some(...)` over the discovered-application placement controls. */
  function AnyProtects(workloadNamespace: string, eligible: seq<DRPolicy>, drpcs: seq<DRPlacementControl>): (r: bool)
    ensures eligible == [] ==> !r
  {
    if drpcs == [] then false
    else ProtectsWith(workloadNamespace, eligible, drpcs[0]) || AnyProtects(workloadNamespace, eligible, drpcs[1..])
  }

  /** One placement control protects the namespace and refers to an eligible policy by name. */
  predicate ProtectsWith(workloadNamespace: string, eligible: seq<DRPolicy>, drpc: DRPlacementControl) {
    && drpc.protectedNamespaces.Some?
    && workloadNamespace in drpc.protectedNamespaces.value
    && NameListed(drpc.drPolicyRefName, eligible)
  }

  /** `eligiblePolicies.some((policy) => getName(policy) === name)`. */
  function NameListed(name: string, eligible: seq<DRPolicy>): bool {
    if eligible == [] then false else eligible[0].name == name || NameListed(name, eligible[1..])
  }

  /**
   * `checkNamespaceProtected`; an absent list of placement controls or of
   * eligible policies protects nothing.
   */
  function CheckNamespaceProtected(workloadNamespace: string, eligiblePolicies: Option<seq<DRPolicy>>, drpcs: Option<seq<DRPlacementControl>>): (r: bool)
    ensures drpcs.None? || drpcs.value == [] ==> !r
    ensures eligiblePolicies.None? ==> !r
  {
    drpcs.Some? && AnyProtects(workloadNamespace, if eligiblePolicies.Some? then eligiblePolicies.value else [], drpcs.value)
  }

  lemma {:induction false} NameListedIff(name: string, eligible: seq<DRPolicy>)
    ensures NameListed(name, eligible) <==> exists p :: p in eligible && p.name == name
  {
    if eligible != [] {
      NameListedIff(name, eligible[1..]);
      assert forall p :: p in eligible <==> p == eligible[0] || p in eligible[1..];
    }
  }

  lemma {:induction false} AnyProtectsIff(workloadNamespace: string, eligible: seq<DRPolicy>, drpcs: seq<DRPlacementControl>)
    ensures AnyProtects(workloadNamespace, eligible, drpcs) <==> exists d :: d in drpcs && ProtectsWith(workloadNamespace, eligible, d)
  {
    if drpcs != [] {
      AnyProtectsIff(workloadNamespace, eligible, drpcs[1..]);
      assert forall d :: d in drpcs <==> d == drpcs[0] || d in drpcs[1..];
    }
  }

  /**
   * The namespace is protected exactly when some placement control both lists
   * it among its protected namespaces and refers by name to an eligible policy.
   */
  lemma NamespaceProtectedIff(workloadNamespace: string, eligible: seq<DRPolicy>, drpcs: seq<DRPlacementControl>)
    ensures CheckNamespaceProtected(workloadNamespace, Some(eligible), Some(drpcs)) <==>
      exists d, p :: d in drpcs && p in eligible
        && d.protectedNamespaces.Some? && workloadNamespace in d.protectedNamespaces.value
        && p.name == d.drPolicyRefName
  {
    AnyProtectsIff(workloadNamespace, eligible, drpcs);
    forall d | d in drpcs {
      NameListedIff(d.drPolicyRefName, eligible);
    }
  }

  // ---------------------------------------------------------------------------
  // Unassigning the selected policies

  /** The selected policies' placement controls, concatenated in selection order. */
  function ConcatPlacementControls(selected: seq<DataPolicy>): seq<PlacementControl> {
    if selected == [] then [] else selected[0].placementControlInfo + ConcatPlacementControls(selected[1..])
  }

  /** The total number of placement controls over the selected policies. */
  function SumPlacementControls(selected: seq<DataPolicy>): nat {
    if selected == [] then 0 else |selected[0].placementControlInfo| + SumPlacementControls(selected[1..])
  }

  /** `reduce((acc, policy) => [...acc, ...policy.placementControlInfo], acc)`: a left fold. */
  function ReducePlacementControls(acc: seq<PlacementControl>, selected: seq<DataPolicy>): (r: seq<PlacementControl>)
    ensures |r| == |acc| + SumPlacementControls(selected)
    ensures r[..|acc|] == acc
    decreases selected
  {
    if selected == [] then acc
    else
      var next := acc + selected[0].placementControlInfo;
      var r := ReducePlacementControls(next, selected[1..]);
      assert r[..|acc|] == r[..|next|][..|acc|];
      r
  }

  /** The placement controls the batch unassign sends requests for: one per selected policy's control. */
  function PlacementControlsToUnassign(selected: seq<DataPolicy>): (r: seq<PlacementControl>)
    ensures |r| == SumPlacementControls(selected)
  {
    ReducePlacementControls([], selected)
  }

  lemma {:induction false} ReduceIsConcat(acc: seq<PlacementControl>, selected: seq<DataPolicy>)
    ensures ReducePlacementControls(acc, selected) == acc + ConcatPlacementControls(selected)
    decreases selected
  {
    if selected != [] {
      ReduceIsConcat(acc + selected[0].placementControlInfo, selected[1..]);
      assert acc + selected[0].placementControlInfo + ConcatPlacementControls(selected[1..])
          == acc + (selected[0].placementControlInfo + ConcatPlacementControls(selected[1..]));
    }
  }

  lemma {:induction false} ConcatLength(selected: seq<DataPolicy>)
    ensures |ConcatPlacementControls(selected)| == SumPlacementControls(selected)
  {
    if selected != [] {
      ConcatLength(selected[1..]);
    }
  }

  lemma {:induction false} ConcatMembers(selected: seq<DataPolicy>, c: PlacementControl)
    ensures c in ConcatPlacementControls(selected) <==> exists i :: 0 <= i < |selected| && c in selected[i].placementControlInfo
  {
    if selected != [] {
      ConcatMembers(selected[1..], c);
      if c in ConcatPlacementControls(selected[1..]) {
        var i :| 0 <= i < |selected[1..]| && c in selected[1..][i].placementControlInfo;
        assert c in selected[i + 1].placementControlInfo;
      }
      forall i | 1 <= i < |selected| && c in selected[i].placementControlInfo
        ensures c in ConcatPlacementControls(selected[1..])
      {
        assert selected[1..][i - 1] == selected[i];
      }
    }
  }

  /**
   * The placement controls to unassign are the selected policies' own, in
   * selection order; there are as many as the selected policies have in total,
   * and each belongs to some selected policy.
   */
  lemma PlacementControlsToUnassignSpec(selected: seq<DataPolicy>)
    ensures PlacementControlsToUnassign(selected) == ConcatPlacementControls(selected)
    ensures |PlacementControlsToUnassign(selected)| == SumPlacementControls(selected)
    ensures forall c :: c in PlacementControlsToUnassign(selected) <==>
      exists i :: 0 <= i < |selected| && c in selected[i].placementControlInfo
  {
    ReduceIsConcat([], selected);
    ConcatLength(selected);
    forall c {
      ConcatMembers(selected, c);
    }
  }

  /** The modal action contexts that the unassign flow moves between. */
  datatype ModalActionContext = NoAction | UnAssigningPolicies | UnAssignPoliciesSucceeded | UnAssignPoliciesFailed

  datatype AlertVariant = SuccessAlert | DangerAlert

  /** The alert title: the translated text, by which case of the flow it reports. */
  datatype MessageTitle = UnassignedPolicies(count: nat) | UnableToUnassignAll

  datatype Message = Message(title: MessageTitle, description: Option<string>, variant: AlertVariant)

  /** The modal state this view reads and writes: the selection, the action context and the alert. */
  datatype ModalState = ModalState(policies: seq<DataPolicy>, modalActionContext: ModalActionContext, message: Option<Message>)

  /** Every request of the batch succeeded: `Promise.all` resolves. */
  predicate AllSucceeded(succeeded: seq<bool>) {
    forall i :: 0 <= i < |succeeded| ==> succeeded[i]
  }

  /**
   * The state once `Promise.all` over the unassign requests settles;
   * `succeeded[i]` says whether request `i` resolved, `rejection` is the error
   * the batch was rejected with.
   */
  function UnassignOutcome(st: ModalState, succeeded: seq<bool>, rejection: string): (r: ModalState)
    ensures AllSucceeded(succeeded) ==>
      r == ModalState([], UnAssignPoliciesSucceeded, Some(Message(UnassignedPolicies(|st.policies|), None, SuccessAlert)))
    ensures !AllSucceeded(succeeded) ==>
      r == ModalState(st.policies, UnAssignPoliciesFailed, Some(Message(UnableToUnassignAll, Some(rejection), DangerAlert)))
  {
    if AllSucceeded(succeeded) then
      st.(policies := [], modalActionContext := UnAssignPoliciesSucceeded,
          message := Some(Message(UnassignedPolicies(|st.policies|), None, SuccessAlert)))
    else
      st.(modalActionContext := UnAssignPoliciesFailed,
          message := Some(Message(UnableToUnassignAll, Some(rejection), DangerAlert)))
  }

  /** A single failed request among any number of successes leaves the selection as it was. */
  lemma OneFailureKeepsSelection(st: ModalState, succeeded: seq<bool>, k: int, rejection: string)
    requires 0 <= k < |succeeded| && !succeeded[k]
    ensures UnassignOutcome(st, succeeded, rejection).policies == st.policies
    ensures UnassignOutcome(st, succeeded, rejection).modalActionContext == UnAssignPoliciesFailed
  {
  }

  /** "Enroll application" is disabled while policies are selected or the namespace is protected. */
  predicate EnrollDisabled(st: ModalState, isNamespaceProtected: bool) {
    |st.policies| != 0 || isNamespaceProtected
  }

  /**
   * After a successful unassign, enrolling is blocked only by namespace
   * protection; after a failed one it stays as blocked as it was.
   */
  lemma EnrollAfterUnassign(st: ModalState, succeeded: seq<bool>, rejection: string, isNamespaceProtected: bool)
    ensures AllSucceeded(succeeded) ==>
      (EnrollDisabled(UnassignOutcome(st, succeeded, rejection), isNamespaceProtected) <==> isNamespaceProtected)
    ensures !AllSucceeded(succeeded) ==>
      (EnrollDisabled(UnassignOutcome(st, succeeded, rejection), isNamespaceProtected) <==> EnrollDisabled(st, isNamespaceProtected))
  {
  }
}
