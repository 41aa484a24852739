# Disaster-recovery console: policy list and replication-health logic

This project models the client-side data logic of two parts of the
disaster-recovery dashboard plugin:

- **The assigned-policy list of the manage-policies modal** (`PolicyListView`,
  `policy_list_view.dfy`). It covers these operations:
  - the search over assigned policies: the name is lower-cased, and the search text is used as typed;
  - the visible page, cut out of the filtered list with JavaScript's `slice`;
  - whether the workload namespace is already protected by a discovered application's placement control;
  - the placement controls sent to the batch unassign;
  - the modal state once that batch settles;
  - whether "Enroll application" is disabled.
- **The cluster/application card** (`ReplicationHealth`,
  `replication_health.dfy`, and `AppSelector`, `app_selector.dfy`). It covers these operations:
  - counting protected volumes into critical/warning/healthy buckets;
  - counting the volumes "with issues";
  - the `namespace%#%name` item ids of the application dropdown and their decoding;
  - grouping the protected applications by namespace.

The shared string operations are in `JsStrings`, `js_strings.dfy`. They are
`toLowerCase` and `includes`. `Wrappers`, `wrappers.dfy`, holds `Option`, which
stands for JavaScript's `undefined`.

The list logic is pure, so it is written as functions and lemmas. The card's
counters and the options `reduce` build their results step by step. They are
methods with loops, proved against counting functions. Lemmas then relate
those counting functions to each other.

Helpers whose code is not part of this model are inputs:
- the health classifier `getVolumeReplicationHealth(seconds, interval)[0]`;
- the application filter `filterPVCDataUsingApp`;
- the clock. The three are gathered in `ReplicationHealth.Env`.
- `getPageRange(page, perPage)`. It is represented by the `start` and `end` it returns.

Three behaviours of the code are easy to miss:
- The search text is not lower-cased, so the search is not case-insensitive. A search text containing an upper-case ASCII letter keeps no policy (`UppercaseSearchKeepsNothing`).
- The "protected PVCs" total is the length of the unfiltered list, even when an application is selected. Only the issue count is filtered.
- Encoding a namespace and a name as `namespace%#%name` and decoding the id does not always give them back, even when neither part contains `%#%`. For a namespace ending in `%#`, the leftmost `%#%` starts two characters before the intended separator, so the namespace's trailing `%#` moves to the front of the name. `TrailingPercentHashBreaksRoundTrip` shows that `a%#` with name `b` decodes as `a` and `#%b`. `DecodeRoundTrip` is proved under the exact condition. Kubernetes namespaces cannot contain `%`, so this does not show up in practice.

## Model

| member | source | states |
|---|---|---|
| JsStrings.ToLowerCase | packages/mco/components/modals/app-manage-policies/policy-list-view.tsx:55 | the lower-cased name has the input's length; each upper-case ASCII letter becomes its lower-case letter (code point plus 32), every other character is kept, so no upper-case ASCII letter remains |
| JsStrings.ToLowerCaseIdempotent | packages/mco/components/modals/app-manage-policies/policy-list-view.tsx:55 | lower-casing an already lower-cased name changes nothing |
| JsStrings.OccursIncludes | packages/mco/components/modals/app-manage-policies/policy-list-view.tsx:55 | an occurrence of the search text at any index makes `includes` true |
| JsStrings.IncludesOccurs | packages/mco/components/modals/app-manage-policies/policy-list-view.tsx:55 | when `includes` is true it yields an index where the text occurs |
| JsStrings.Includes | packages/mco/components/modals/app-manage-policies/policy-list-view.tsx:55 | `s.includes(t)`: some suffix of `s` starts with `t`; `IncludesIffOccurs` proves this is exactly an occurrence of `t` at some index |
| JsStrings.IncludesIffOccurs | packages/mco/components/modals/app-manage-policies/policy-list-view.tsx:55 | `includes` holds exactly when the text occurs at some index (both directions) |
| JsStrings.IncludesEmpty | packages/mco/components/modals/app-manage-policies/policy-list-view.tsx:155 | every name includes the empty search string |
| JsStrings.UpperNotInLowered | packages/mco/components/modals/app-manage-policies/policy-list-view.tsx:55 | a search text with an upper-case ASCII letter is never included in a lower-cased name |
| PolicyListView.FilterPolicies | packages/mco/components/modals/app-manage-policies/policy-list-view.tsx:53-56 | a policy is in the result exactly when it is in the input and its lower-cased name includes the search text; the result is no longer than the input |
| PolicyListView.FilterIsSubsequence | packages/mco/components/modals/app-manage-policies/policy-list-view.tsx:53-56 | the filtered list is a subsequence of the input: nothing added, nothing reordered |
| PolicyListView.SubsequenceMultiset | packages/mco/components/modals/app-manage-policies/policy-list-view.tsx:53-56 | a subsequence's multiset is contained in the input's: no policy is duplicated |
| PolicyListView.FilterDistributes | packages/mco/components/modals/app-manage-policies/policy-list-view.tsx:53-56 | filtering a concatenation is the concatenation of the filtered parts, so the input order is preserved |
| PolicyListView.EmptySearchKeepsAll | packages/mco/components/modals/app-manage-policies/policy-list-view.tsx:155-157 | the initial empty search keeps the list unchanged, so its length is the input's |
| PolicyListView.UppercaseSearchKeepsNothing | packages/mco/components/modals/app-manage-policies/policy-list-view.tsx:55 | because the search text is not lower-cased, a search text with an upper-case ASCII letter keeps nothing |
| PolicyListView.RelativeIndex | packages/mco/components/modals/app-manage-policies/policy-list-view.tsx:158 | a `slice` argument becomes an index within the list; a non-negative one is clamped to the length |
| PolicyListView.Slice | packages/mco/components/modals/app-manage-policies/policy-list-view.tsx:158 | the page is no longer than the list and, for `0 <= start <= end`, has at most `end - start` items |
| PolicyListView.SliceIsContiguous | packages/mco/components/modals/app-manage-policies/policy-list-view.tsx:156-158 | the page is the contiguous run from `start`: item `i` is list item `start + i`, and its length is `min(end, len) - start` (zero past the end) |
| PolicyListView.PolicyPage | packages/mco/components/modals/app-manage-policies/policy-list-view.tsx:156-159 | the visible policies are the slice `[start, end)` of the filtered list and the item count is the filtered length; an absent list or search text counts as empty; search is hidden for an absent or empty list, the empty state shows only for an empty one |
| PolicyListView.PolicyPageBounds | packages/mco/components/modals/app-manage-policies/policy-list-view.tsx:156-158 | the visible page has at most `end - start` policies; the item count never exceeds the unfiltered length and equals it without a search |
| PolicyListView.TenPoliciesFourPerPage | packages/mco/components/modals/app-manage-policies/policy-list-view.tsx:51 | with ten policies and `COUNT_PER_PAGE_NUMBER` (four) per page, pages `[0,4)`, `[8,12)`, `[12,16)` show 4, the last 2, and 0 policies, with an item count of 10 |
| PolicyListView.AnyProtects | packages/mco/components/modals/app-manage-policies/policy-list-view.tsx:75-82 | with no eligible policy, no placement control protects the namespace |
| PolicyListView.NameListedIff | packages/mco/components/modals/app-manage-policies/policy-list-view.tsx:78-80 | the policy reference matches exactly when some eligible policy has that name |
| PolicyListView.AnyProtectsIff | packages/mco/components/modals/app-manage-policies/policy-list-view.tsx:75-82 | `some` over placement controls holds exactly when one of them protects the namespace with an eligible policy |
| PolicyListView.CheckNamespaceProtected | packages/mco/components/modals/app-manage-policies/policy-list-view.tsx:70-82 | an absent or empty placement-control list, or absent eligible policies, give false |
| PolicyListView.NamespaceProtectedIff | packages/mco/components/modals/app-manage-policies/policy-list-view.tsx:70-82 | the namespace is protected exactly when some placement control lists it in `protectedNamespaces` and refers by name to an eligible policy |
| PolicyListView.ReduceIsConcat | packages/mco/components/modals/app-manage-policies/policy-list-view.tsx:196-199 | the left-fold `reduce` with spreads equals the accumulator followed by the in-order concatenation |
| PolicyListView.ConcatLength | packages/mco/components/modals/app-manage-policies/policy-list-view.tsx:196-199 | the concatenation's length is the sum of the selected policies' placement-control counts |
| PolicyListView.ConcatMembers | packages/mco/components/modals/app-manage-policies/policy-list-view.tsx:196-199 | a placement control is in the concatenation exactly when some selected policy has it |
| PolicyListView.ReducePlacementControls | packages/mco/components/modals/app-manage-policies/policy-list-view.tsx:196-199 | the spread-based fold keeps the accumulator as its prefix and adds exactly as many controls as the policies hold in total |
| PolicyListView.PlacementControlsToUnassign | packages/mco/components/modals/app-manage-policies/policy-list-view.tsx:196-199 | one request per placement control of the selected policies: the count is the total over the selection (contents and order in `PlacementControlsToUnassignSpec`) |
| PolicyListView.PlacementControlsToUnassignSpec | packages/mco/components/modals/app-manage-policies/policy-list-view.tsx:196-199 | the controls to unassign are the selected policies' own, in selection order, as many as their sum, each belonging to a selected policy |
| PolicyListView.UnassignOutcome | packages/mco/components/modals/app-manage-policies/policy-list-view.tsx:201-226 | if every request succeeds: selection empty, context SUCCEEDED, success alert counting the old selection; otherwise: selection unchanged, context FAILED, danger alert with the rejection |
| PolicyListView.OneFailureKeepsSelection | packages/mco/components/modals/app-manage-policies/policy-list-view.tsx:217-226 | one failed request among any number leaves the selection as it was and sets context FAILED |
| PolicyListView.EnrollDisabled | packages/mco/components/modals/app-manage-policies/policy-list-view.tsx:238 | "Enroll application" is disabled while any policy is selected or the namespace is protected; `EnrollAfterUnassign` states its value after each unassign outcome |
| PolicyListView.EnrollAfterUnassign | packages/mco/components/modals/app-manage-policies/policy-list-view.tsx:238 | after success "Enroll application" is disabled exactly when the namespace is protected; after failure it is as disabled as before |
| ReplicationHealth.PvcHealth | packages/mco/components/mco-dashboard/disaster-recovery/cluster-app-card/common.tsx:79-89 | a non-async volume is healthy whatever its sync time; an async one is classified on the elapsed seconds since its last sync, or on LEAST_SECONDS_IN_PROMETHEUS when it has none |
| ReplicationHealth.UpdateSummary | packages/mco/components/mco-dashboard/disaster-recovery/cluster-app-card/common.tsx:76-95 | undefined data gives three zeros; otherwise each bucket is the number of volumes passing the application filter with that health |
| ReplicationHealth.UpdateProtectedPVC | packages/mco/components/mco-dashboard/disaster-recovery/cluster-app-card/common.tsx:351-373 | the total is the unfiltered length (0 when undefined); the issue count is the number of filtered, non-healthy volumes; issues never exceed the total |
| ReplicationHealth.BucketsSumToConsidered | packages/mco/components/mco-dashboard/disaster-recovery/cluster-app-card/common.tsx:76-95 | critical + warning + healthy equals the number of volumes passing the application filter |
| ReplicationHealth.ConsideredAtMostAll | packages/mco/components/mco-dashboard/disaster-recovery/cluster-app-card/common.tsx:90-93 | at most all volumes pass the filter, and without a selected application all of them do |
| ReplicationHealth.UnmatchedAppGivesNothing | packages/mco/components/mco-dashboard/disaster-recovery/cluster-app-card/common.tsx:90-93 | an application no volume belongs to gives an empty bucket |
| ReplicationHealth.IssuesAreCriticalPlusWarning | packages/mco/components/mco-dashboard/disaster-recovery/cluster-app-card/common.tsx:356-368 | for the same data, filter and clock, the issue count equals the summary's critical plus warning |
| ReplicationHealth.SummaryAgreesWithIssues | packages/mco/components/mco-dashboard/disaster-recovery/cluster-app-card/common.tsx:351-372 | issues plus healthy equals the filtered count, which is at most the reported total; without a filter the three buckets add up to the total |
| AppSelector.SplitFrom | packages/mco/components/mco-dashboard/disaster-recovery/cluster-app-card/common.tsx:51 | splitting always yields at least one piece |
| AppSelector.Split | packages/mco/components/mco-dashboard/disaster-recovery/cluster-app-card/common.tsx:51 | `split('%#%')` gives at least one piece, and no piece includes the separator; the first piece is the prefix up to the leftmost separator, and a second piece exists only when a separator starts right after it |
| AppSelector.SplitFromFirst | packages/mco/components/mco-dashboard/disaster-recovery/cluster-app-card/common.tsx:51 | the first piece is the piece already read plus the longest prefix in which no separator starts; more pieces follow only when a separator starts right after it |
| AppSelector.SplitFromNoSeparator | packages/mco/components/mco-dashboard/disaster-recovery/cluster-app-card/common.tsx:51 | when no separator starts inside the piece already read, no piece of the split includes the separator |
| AppSelector.PieceHasNoSeparator | packages/mco/components/mco-dashboard/disaster-recovery/cluster-app-card/common.tsx:51 | a piece inside which no separator starts does not include it |
| AppSelector.JoinSplitFrom | packages/mco/components/mco-dashboard/disaster-recovery/cluster-app-card/common.tsx:51 | joining the pieces split from the rest of the string gives back the current piece followed by that rest |
| AppSelector.JoinSplit | packages/mco/components/mco-dashboard/disaster-recovery/cluster-app-card/common.tsx:51 | joining the pieces of `split('%#%')` with the separator gives back the id |
| AppSelector.SplitFromPieces | packages/mco/components/mco-dashboard/disaster-recovery/cluster-app-card/common.tsx:50-51 | there are two or more pieces exactly when the string includes the separator, and otherwise just one |
| AppSelector.SplitPieces | packages/mco/components/mco-dashboard/disaster-recovery/cluster-app-card/common.tsx:50-51 | an id splits into two or more pieces exactly when it includes `%#%`, and otherwise into itself |
| AppSelector.GetNSAndNameFromId | packages/mco/components/mco-dashboard/disaster-recovery/cluster-app-card/common.tsx:49-55 | an id without the separator, or an undefined one, gives `[undefined, ALL_APPS]`; otherwise the defined pieces rejoin to the id; at least two entries, the second always defined; every piece is then present and free of the separator |
| AppSelector.SplitFromSkip | packages/mco/components/mco-dashboard/disaster-recovery/cluster-app-card/common.tsx:51 | a stretch with no separator starting in it only extends the current piece |
| AppSelector.NoSeparatorInsideNamespace | packages/mco/components/mco-dashboard/disaster-recovery/cluster-app-card/common.tsx:233 | in `ns%#%name`, for a decodable namespace, no separator starts inside the namespace |
| AppSelector.NoSeparatorAt | packages/mco/components/mco-dashboard/disaster-recovery/cluster-app-card/common.tsx:233 | in `ns%#%name`, for a decodable namespace, no separator starts at a given index inside the namespace |
| AppSelector.SplitFromNonPercent | packages/mco/components/mco-dashboard/disaster-recovery/cluster-app-card/common.tsx:51 | a character other than `%` cannot start a separator and joins the current piece |
| AppSelector.SplitFromSeparatorFirst | packages/mco/components/mco-dashboard/disaster-recovery/cluster-app-card/common.tsx:51 | a separator at the front closes the current piece |
| AppSelector.SplitEncoded | packages/mco/components/mco-dashboard/disaster-recovery/cluster-app-card/common.tsx:51 | `(ns + '%#%' + name).split('%#%')` is `[ns, name]` for a decodable namespace and a name without the separator |
| AppSelector.DecodeRoundTrip | packages/mco/components/mco-dashboard/disaster-recovery/cluster-app-card/common.tsx:49-55 | decoding `ns%#%name` gives back `[ns, name]` under the same conditions |
| AppSelector.TrailingPercentHashBreaksRoundTrip | packages/mco/components/mco-dashboard/disaster-recovery/cluster-app-card/common.tsx:49-55 | the namespace `a%#` and name `b` decode as `a` and `#%b`: "contains no `%#%`" alone does not give the round trip |
| AppSelector.NoPercentNoSeparator | packages/mco/components/mco-dashboard/disaster-recovery/cluster-app-card/common.tsx:50 | a string without `%` never includes the separator |
| AppSelector.AllAppsItemIdHasNoSeparator | packages/mco/components/mco-dashboard/disaster-recovery/cluster-app-card/common.tsx:233 | the all-applications item id does not include `%#%` |
| AppSelector.SelectedItemId | packages/mco/components/mco-dashboard/disaster-recovery/cluster-app-card/common.tsx:233 | the `selected` id includes the separator exactly when the application has a non-empty namespace |
| AppSelector.JoinStartsWithFirstTwo | packages/mco/components/mco-dashboard/disaster-recovery/cluster-app-card/common.tsx:258 | a join of two or more pieces starts with the first two pieces and the separator between them |
| AppSelector.ApplicationFromItemId | packages/mco/components/mco-dashboard/disaster-recovery/cluster-app-card/common.tsx:255-260 | `onSelect`: an id without the separator (or none) selects all applications; otherwise the namespace and name are free of the separator, and the id starts with `namespace%#%name` |
| AppSelector.SelectionRoundTrip | packages/mco/components/mco-dashboard/disaster-recovery/cluster-app-card/common.tsx:233-261 | selecting the `selected` id gives back the application when its namespace is non-empty, contains no `%#%` and does not end in `%#`, and its name contains no `%#%` (the conditions of `DecodeRoundTrip`); an absent or empty namespace gives all applications |
| AppSelector.DistinctNamespacesSpec | packages/mco/components/mco-dashboard/disaster-recovery/cluster-app-card/common.tsx:241 | the option keys are the protected apps' namespaces, each listed once |
| AppSelector.NamesInEmptyIff | packages/mco/components/mco-dashboard/disaster-recovery/cluster-app-card/common.tsx:241-242 | a namespace has names exactly when it is a key |
| AppSelector.AppListedUnderItsNamespace | packages/mco/components/mco-dashboard/disaster-recovery/cluster-app-card/common.tsx:241-242 | every protected app's name appears under its own namespace |
| AppSelector.SumNamesOtherApp | packages/mco/components/mco-dashboard/disaster-recovery/cluster-app-card/common.tsx:241-242 | adding an app whose namespace is not among the keys leaves their name total unchanged |
| AppSelector.SumNamesOwnApp | packages/mco/components/mco-dashboard/disaster-recovery/cluster-app-card/common.tsx:242 | pushing an app's name under its existing namespace adds exactly one to the total |
| AppSelector.SumNamesCountsApps | packages/mco/components/mco-dashboard/disaster-recovery/cluster-app-card/common.tsx:237-246 | the number of names across all namespaces equals the number of protected apps |
| AppSelector.TotalOptionNamesIsSumNames | packages/mco/components/mco-dashboard/disaster-recovery/cluster-app-card/common.tsx:237-246 | when each key maps to its apps' names, the options' name total is their sum |
| AppSelector.GroupByNamespace | packages/mco/components/mco-dashboard/disaster-recovery/cluster-app-card/common.tsx:237-246 | keys in first-appearance order, each holding its namespace's names in input order; the name total equals the number of apps |
| AppSelector.AppDropdownOptions | packages/mco/components/mco-dashboard/disaster-recovery/cluster-app-card/common.tsx:235-248 | an unknown cluster or one without protected apps gives empty options; otherwise the grouping above |

## Left out

- Rendering is not modelled: the donut chart, toolbar, pagination widget, empty state, alerts' translated text, the dropdown widgets and the toggle label. It is presentation only.
- `useK8sWatchResource`, `unAssignPromises` and the Kubernetes requests are not modelled. They are network I/O. The batch's result is an input: one success flag per request.
- UnassignOutcome: does not model which rejection `Promise.all` reports when several requests fail. That depends on timing, so the error is a parameter.
- `useScheduler` and the wall clock are not modelled. "Now" is `Env.now`. Sync times are whole seconds, and parsing the timestamp string is not modelled. `getTimeDifferenceInSeconds` is not part of this model; it is taken to be `Env.now` minus the sync time (`ElapsedSeconds`).
- `getVolumeReplicationHealth`, `filterPVCDataUsingApp` and `getPageRange` are not part of this model. They are uninterpreted inputs: `Env.classify`, `Env.matchesApp`, and the `start`/`end` of a page.
- The constants `ALL_APPS`, `ALL_APPS_ITEM_ID` and `LEAST_SECONDS_IN_PROMETHEUS` are defined in `packages/mco/constants`, which is not part of this model. Their values here are placeholders. The proofs use only one fact about them: the all-applications id contains no `%`.
- The `ModalActionContext` enumeration and the modal reducer are not part of this model. Only the contexts the unassign flow sets are modelled.
- ToLowerCase: lower-cases ASCII letters only. JavaScript's `toLowerCase` also maps other Unicode upper-case letters.
- DecodeRoundTrip: is proved for namespaces that do not end in `%#`. This is stronger than "contains no `%#%`" alone, which is not enough (see TrailingPercentHashBreaksRoundTrip).
- Some malformed records make the code throw rather than return, and the model leaves them out:
  - a discovered placement control without `spec` throws when an eligible policy exists;
  - an undefined entry in the volume list is read unguarded at `replicationType`;
  - a selected policy without `placementControlInfo` cannot be spread.
  - a policy without `metadata.name` throws at `toLowerCase` in the search filter;
  - a placement control that has a `spec` but no `drPolicyRef` throws when an eligible policy exists.
- An empty-string `lastSyncTime` counts as absent, because the code tests `!!pvcLastSyncTime`. The model has no such value: a sync time is an `Option<int>`, and the empty string corresponds to `None`.
- `GroupByNamespace` keeps keys in insertion order. Two JavaScript object quirks are left out:
  - `Object.keys` lists integer-like keys first, in ascending order;
  - a namespace literally named `hasOwnProperty` would shadow the method.
- The `ClusterDropdown` regex filter is left out because it relies on JavaScript `RegExp` semantics. The `onChange` shim is left out because it only adapts an event signature.
- The page and per-page state handlers of the pagination widget are left out. The page bounds arrive as `start` and `end`.
