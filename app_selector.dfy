/**
 * The application dropdown of the cluster/application card: item ids of the
 * form `namespace%#%name`, their decoding (`getNSAndNameFromId`), the id of
 * the current selection, and the options grouped by namespace.
 */
module AppSelector {
  import opened Wrappers
  import opened JsStrings

  /** Separates namespace and name in an item id. */
  const SEPARATOR: string := "%#%"

  /**
   * The "all applications" entry: its label and its item id. Both constants are
   * defined in `packages/mco/constants`, which is not part of this model; the
   * only fact the proofs use is that the item id does not contain the separator.
   */
  const ALL_APPS: string := "All applications"
  const ALL_APPS_ITEM_ID: string := "all-applications"

  // ---------------------------------------------------------------------------
  // Item ids

  /** `s.split(SEPARATOR)`, with `piece` the part of the current piece already read. */
  function SplitFrom(s: string, piece: string): (r: seq<string>)
    ensures |r| >= 1
    decreases |s|
  {
    if StartsWith(s, SEPARATOR) then [piece] + SplitFrom(s[|SEPARATOR|..], "")
    else if s == [] then [piece]
    else SplitFrom(s[1..], piece + [s[0]])
  }

  /**
   * When no separator starts inside the piece already read, no piece of the
   * split includes the separator.
   */
  lemma {:induction false} SplitFromNoSeparator(s: string, piece: string)
    requires forall i :: 0 <= i < |piece| ==> !StartsWith((piece + s)[i..], SEPARATOR)
    ensures forall k :: 0 <= k < |SplitFrom(s, piece)| ==> !Includes(SplitFrom(s, piece)[k], SEPARATOR)
    decreases |s|
  {
    if StartsWith(s, SEPARATOR) || s == [] {
      PieceHasNoSeparator(piece, s);
      if s != [] {
        SplitFromNoSeparator(s[|SEPARATOR|..], "");
      }
    } else {
      var next := piece + [s[0]];
      assert next + s[1..] == piece + s;
      assert (piece + s)[|piece|..] == s;
      SplitFromNoSeparator(s[1..], next);
    }
  }

  /** A separator starting inside the piece would start there in the piece and what follows it too. */
  lemma PieceSeparatorAt(piece: string, s: string, i: int)
    requires 0 <= i && i + |SEPARATOR| <= |piece|
    requires !StartsWith((piece + s)[i..], SEPARATOR)
    ensures !OccursAt(piece, SEPARATOR, i)
  {
    var x := (piece + s)[i..];
    StartsWithSeparatorChars(x);
    assert x[0] == piece[i] && x[1] == piece[i + 1] && x[2] == piece[i + 2];
    assert piece[i..i + 3] == [piece[i], piece[i + 1], piece[i + 2]];
  }

  /** A piece inside which no separator starts does not include the separator. */
  lemma PieceHasNoSeparator(piece: string, s: string)
    requires forall i :: 0 <= i < |piece| ==> !StartsWith((piece + s)[i..], SEPARATOR)
    ensures !Includes(piece, SEPARATOR)
  {
    IncludesIffOccurs(piece, SEPARATOR);
    forall i ensures !OccursAt(piece, SEPARATOR, i) {
      if 0 <= i && i + |SEPARATOR| <= |piece| {
        PieceSeparatorAt(piece, s, i);
      }
    }
  }

  /**
   * The first piece is the piece already read followed by the longest prefix
   * of `s` in which no separator starts; a second piece follows only when a
   * separator starts right after that prefix.
   */
  lemma {:induction false} SplitFromFirst(s: string, piece: string)
    ensures var m := |SplitFrom(s, piece)[0]| - |piece|;
      0 <= m <= |s| && SplitFrom(s, piece)[0] == piece + s[..m]
      && (forall i :: 0 <= i < m ==> !StartsWith(s[i..], SEPARATOR))
      && (|SplitFrom(s, piece)| >= 2 ==> StartsWith(s[m..], SEPARATOR))
    decreases |s|
  {
    if StartsWith(s, SEPARATOR) || s == [] {
      assert piece + s[..0] == piece;
    } else {
      var next := piece + [s[0]];
      SplitFromFirst(s[1..], next);
      var k := |SplitFrom(s[1..], next)[0]| - |next|;
      var m := k + 1;
      assert next + s[1..][..k] == piece + s[..m];
      forall i | 0 < i < m ensures !StartsWith(s[i..], SEPARATOR) {
        assert s[i..] == s[1..][i - 1..];
      }
      assert s[m..] == s[1..][k..];
    }
  }

  /**
   * `s.split('%#%')`: the pieces between left-to-right, non-overlapping
   * separators. No piece includes the separator, and the first piece ends at
   * the leftmost separator.
   */
  function Split(s: string): (r: seq<string>)
    ensures |r| >= 1
    ensures forall k :: 0 <= k < |r| ==> !Includes(r[k], SEPARATOR)
    ensures |r[0]| <= |s| && r[0] == s[..|r[0]|]
    ensures forall i :: 0 <= i < |r[0]| ==> !StartsWith(s[i..], SEPARATOR)
    ensures |r| >= 2 ==> StartsWith(s[|r[0]|..], SEPARATOR)
  {
    SplitFromNoSeparator(s, "");
    SplitFromFirst(s, "");
    assert forall t: string :: "" + t == t;
    SplitFrom(s, "")
  }

  /** `pieces.join('%#%')`. */
  function Join(pieces: seq<string>): string
    requires |pieces| >= 1
  {
    if |pieces| == 1 then pieces[0] else pieces[0] + SEPARATOR + Join(pieces[1..])
  }

  lemma {:induction false} JoinSplitFrom(s: string, piece: string)
    ensures Join(SplitFrom(s, piece)) == piece + s
    decreases |s|
  {
    if StartsWith(s, SEPARATOR) {
      JoinSplitFrom(s[|SEPARATOR|..], "");
      assert s == SEPARATOR + s[|SEPARATOR|..];
    } else if s != [] {
      JoinSplitFrom(s[1..], piece + [s[0]]);
      assert piece + [s[0]] + s[1..] == piece + s;
    }
  }

  /** Joining the pieces of a split gives back the string. */
  lemma JoinSplit(s: string)
    ensures Join(Split(s)) == s
  {
    JoinSplitFrom(s, "");
  }

  lemma {:induction false} SplitFromPieces(s: string, piece: string)
    ensures Includes(s, SEPARATOR) <==> |SplitFrom(s, piece)| >= 2
    ensures !Includes(s, SEPARATOR) ==> SplitFrom(s, piece) == [piece + s]
    decreases |s|
  {
    if StartsWith(s, SEPARATOR) {
    } else if s != [] {
      SplitFromPieces(s[1..], piece + [s[0]]);
      assert piece + [s[0]] + s[1..] == piece + s;
    } else {
      assert piece + s == piece;
    }
  }

  /** A string splits into several pieces exactly when it includes the separator, else into itself. */
  lemma SplitPieces(s: string)
    ensures Includes(s, SEPARATOR) <==> |Split(s)| >= 2
    ensures !Includes(s, SEPARATOR) ==> Split(s) == [s]
  {
    SplitFromPieces(s, "");
    assert "" + s == s;
  }

  function SomeEach(pieces: seq<string>): (r: seq<Option<string>>)
    ensures |r| == |pieces|
    ensures forall k :: 0 <= k < |r| ==> r[k] == Some(pieces[k])
  {
    seq(|pieces|, k requires 0 <= k < |pieces| => Some(pieces[k]))
  }

  predicate AllPresent(parts: seq<Option<string>>) {
    forall k :: 0 <= k < |parts| ==> parts[k].Some?
  }

  function Values(parts: seq<Option<string>>): (r: seq<string>)
    requires AllPresent(parts)
    ensures |r| == |parts|
    ensures forall k :: 0 <= k < |r| ==> parts[k] == Some(r[k])
  {
    seq(|parts|, k requires 0 <= k < |parts| => parts[k].value)
  }

  /**
   * `getNSAndNameFromId`: an id that includes the separator is split at it;
   * any other id, and an absent one, stands for all applications.
   */
  function GetNSAndNameFromId(itemId: Option<string>): (r: seq<Option<string>>)
    ensures |r| >= 2
    ensures forall k :: 1 <= k < |r| ==> r[k].Some?
    ensures !(itemId.Some? && Includes(itemId.value, SEPARATOR)) ==> r == [None, Some(ALL_APPS)]
    ensures itemId.Some? && Includes(itemId.value, SEPARATOR) ==>
      AllPresent(r) && Join(Values(r)) == itemId.value
    ensures itemId.Some? && Includes(itemId.value, SEPARATOR) ==>
      forall k :: 0 <= k < |r| ==> r[k].Some? && !Includes(r[k].value, SEPARATOR)
  {
    if itemId.Some? && Includes(itemId.value, SEPARATOR) then
      SplitPieces(itemId.value);
      JoinSplit(itemId.value);
      var pieces := Split(itemId.value);
      assert Values(SomeEach(pieces)) == pieces;
      SomeEach(pieces)
    else
      [None, Some(ALL_APPS)]
  }

  /** A namespace whose encoding is decoded back to it: no separator inside, and no "%#" at its end. */
  predicate DecodableNamespace(ns: string) {
    !Includes(ns, SEPARATOR) && !(|ns| >= 2 && ns[|ns| - 2..] == "%#")
  }

  /** A first character that does not start a separator joins the current piece. */
  lemma SplitFromStep(x: string, rest: string, piece: string)
    requires x != [] && !StartsWith(x + rest, SEPARATOR)
    ensures SplitFrom(x + rest, piece) == SplitFrom(x[1..] + rest, piece + [x[0]])
  {
    assert (x + rest)[0] == x[0];
    assert (x + rest)[1..] == x[1..] + rest;
  }

  /** Reading past a stretch without a separator only extends the current piece. */
  lemma {:induction false} SplitFromSkip(x: string, rest: string, piece: string)
    requires forall i :: 0 <= i < |x| ==> !StartsWith((x + rest)[i..], SEPARATOR)
    ensures SplitFrom(x + rest, piece) == SplitFrom(rest, piece + x)
    decreases |x|
  {
    if x != [] {
      assert (x + rest)[0..] == x + rest;
      SplitFromStep(x, rest, piece);
      forall i | 0 <= i < |x[1..]| ensures !StartsWith((x[1..] + rest)[i..], SEPARATOR) {
        assert (x[1..] + rest)[i..] == (x + rest)[i + 1..];
      }
      SplitFromSkip(x[1..], rest, piece + [x[0]]);
      assert piece + [x[0]] + x[1..] == piece + x;
    } else {
      assert x + rest == rest && piece + x == piece;
    }
  }

  /** Starting with the separator, character by character. */
  lemma StartsWithSeparatorChars(x: string)
    ensures StartsWith(x, SEPARATOR) <==> |x| >= 3 && x[0] == '%' && x[1] == '#' && x[2] == '%'
  {
    if |x| >= 3 {
      assert x[..3] == [x[0], x[1], x[2]];
    }
  }

  /** `t` either is included in `s` or differs from the slice of `s` at `i`. */
  lemma NotIncludedDiffers(s: string, t: string, i: int)
    requires 0 <= i && i + |t| <= |s|
    ensures Includes(s, t) || s[i..i + |t|] != t
  {
    if s[i..i + |t|] == t {
      OccursIncludes(s, t, i);
    }
  }

  /** In `ns + "%#%" + name`, no separator starts at index `i` of `ns`. */
  lemma NoSeparatorAt(ns: string, name: string, i: int)
    requires DecodableNamespace(ns) && 0 <= i < |ns|
    ensures !StartsWith((ns + SEPARATOR + name)[i..], SEPARATOR)
  {
    var x := (ns + SEPARATOR + name)[i..];
    StartsWithSeparatorChars(x);
    if i + 3 <= |ns| {
      NotIncludedDiffers(ns, SEPARATOR, i);
      assert x[..3] == ns[i..i + 3];
    } else if i == |ns| - 2 {
      assert x[0] == ns[i] && x[1] == ns[i + 1];
      assert ns[|ns| - 2..] == [ns[i], ns[i + 1]];
    } else {
      assert x[1] == '%';
    }
  }

  /** In `ns + "%#%" + name`, no separator starts inside `ns`. */
  lemma NoSeparatorInsideNamespace(ns: string, name: string)
    requires DecodableNamespace(ns)
    ensures forall i :: 0 <= i < |ns| ==> !StartsWith((ns + SEPARATOR + name)[i..], SEPARATOR)
  {
    forall i | 0 <= i < |ns| ensures !StartsWith((ns + SEPARATOR + name)[i..], SEPARATOR) {
      NoSeparatorAt(ns, name, i);
    }
  }

  /** A separator at the front closes the current piece. */
  lemma SplitFromSeparatorFirst(name: string, piece: string)
    ensures SplitFrom(SEPARATOR + name, piece) == [piece] + SplitFrom(name, "")
  {
    assert StartsWith(SEPARATOR + name, SEPARATOR);
    assert (SEPARATOR + name)[|SEPARATOR|..] == name;
  }

  /** Splitting the encoding of a namespace and a name gives them back. */
  lemma SplitEncoded(ns: string, name: string)
    requires DecodableNamespace(ns) && !Includes(name, SEPARATOR)
    ensures Split(ns + SEPARATOR + name) == [ns, name]
  {
    var rest := SEPARATOR + name;
    NoSeparatorInsideNamespace(ns, name);
    assert ns + SEPARATOR + name == ns + rest;
    SplitFromSkip(ns, rest, "");
    assert "" + ns == ns;
    SplitFromSeparatorFirst(name, ns);
    SplitFromPieces(name, "");
    assert "" + name == name;
  }

  /** Decoding the encoding of a namespace and a name gives them back. */
  lemma DecodeRoundTrip(ns: string, name: string)
    requires DecodableNamespace(ns) && !Includes(name, SEPARATOR)
    ensures GetNSAndNameFromId(Some(ns + SEPARATOR + name)) == [Some(ns), Some(name)]
  {
    var s := ns + SEPARATOR + name;
    assert OccursAt(s, SEPARATOR, |ns|) by {
      assert s[|ns|..|ns| + 3] == SEPARATOR;
    }
    OccursIncludes(s, SEPARATOR, |ns|);
    SplitEncoded(ns, name);
  }

  /** A character other than '%' cannot start a separator, so it joins the current piece. */
  lemma SplitFromNonPercent(c: char, rest: string, piece: string)
    requires c != '%'
    ensures SplitFrom([c] + rest, piece) == SplitFrom(rest, piece + [c])
  {
    assert ([c] + rest)[0] == c;
    assert ([c] + rest)[1..] == rest;
  }

  lemma HashPercentBHasNoSeparator()
    ensures !Includes("#%b", SEPARATOR)
  {
    IncludesIffOccurs("#%b", SEPARATOR);
    assert "#%b"[0..3][0] == '#';
  }

  /**
   * A namespace ending in "%#" does not survive the encoding: the namespace
   * "a%#" with the name "b" decodes as namespace "a" and name "#%b".
   */
  lemma TrailingPercentHashBreaksRoundTrip()
    ensures GetNSAndNameFromId(Some("a%#" + SEPARATOR + "b")) == [Some("a"), Some("#%b")]
  {
    var rest := SEPARATOR + "#%b";
    var s := "a" + rest;
    assert "a%#" + SEPARATOR + "b" == s;
    SplitFromNonPercent('a', rest, "");
    assert "" + ['a'] == "a";
    SplitFromSeparatorFirst("#%b", "a");
    HashPercentBHasNoSeparator();
    SplitFromPieces("#%b", "");
    assert "" + "#%b" == "#%b";
    assert Split(s) == ["a", "#%b"];
    assert s[1..1 + 3] == SEPARATOR;
    OccursIncludes(s, SEPARATOR, 1);
  }

  /** The application picked in the dropdown; it has no namespace for all applications. */
  datatype Application = Application(name: string, namespace: Option<string>)

  /** The `selected` item id: the all-applications id without a (non-empty) namespace. */
  function SelectedItemId(app: Application): (r: string)
    ensures Includes(r, SEPARATOR) <==> app.namespace.Some? && app.namespace.value != ""
  {
    if app.namespace.None? || app.namespace.value == "" then
      AllAppsItemIdHasNoSeparator();
      ALL_APPS_ITEM_ID
    else
      var ns := app.namespace.value;
      var id := ns + SEPARATOR + app.name;
      assert id[|ns|..|ns| + |SEPARATOR|] == SEPARATOR;
      OccursIncludes(id, SEPARATOR, |ns|);
      id
  }

  /** A join starts with its first piece. */
  lemma JoinStartsWithFirst(pieces: seq<string>)
    requires |pieces| >= 1
    ensures StartsWith(Join(pieces), pieces[0])
  {
    if |pieces| > 1 {
      assert Join(pieces)[..|pieces[0]|] == pieces[0];
    }
  }

  /** A join of two or more pieces starts with the first two, separated. */
  lemma JoinStartsWithFirstTwo(pieces: seq<string>)
    requires |pieces| >= 2
    ensures StartsWith(Join(pieces), pieces[0] + SEPARATOR + pieces[1])
  {
    var head := pieces[0] + SEPARATOR;
    var tail := Join(pieces[1..]);
    JoinStartsWithFirst(pieces[1..]);
    assert Join(pieces) == head + tail;
    assert (head + tail)[..|head| + |pieces[1]|] == head + tail[..|pieces[1]|];
  }

  /**
   * `onSelect`: the application an item id stands for. An id with the
   * separator gives a namespace and a name, both free of the separator, that
   * the id starts with; any other id gives all applications.
   */
  function ApplicationFromItemId(itemId: Option<string>): (r: Application)
    ensures !(itemId.Some? && Includes(itemId.value, SEPARATOR)) ==> r == Application(ALL_APPS, None)
    ensures itemId.Some? && Includes(itemId.value, SEPARATOR) ==>
      && r.namespace.Some?
      && !Includes(r.namespace.value, SEPARATOR) && !Includes(r.name, SEPARATOR)
      && StartsWith(itemId.value, r.namespace.value + SEPARATOR + r.name)
  {
    var parts := GetNSAndNameFromId(itemId);
    var app := Application(parts[1].value, parts[0]);
    if itemId.Some? && Includes(itemId.value, SEPARATOR) then
      JoinStartsWithFirstTwo(Values(parts));
      app
    else
      app
  }

  /** A string without a '%' cannot include the separator. */
  lemma NoPercentNoSeparator(s: string)
    requires '%' !in s
    ensures !Includes(s, SEPARATOR)
  {
    IncludesIffOccurs(s, SEPARATOR);
    forall i ensures !OccursAt(s, SEPARATOR, i) {
      if 0 <= i && i + 3 <= |s| {
        assert s[i..i + 3][0] == s[i];
      }
    }
  }

  lemma AllAppsItemIdHasNoSeparator()
    ensures !Includes(ALL_APPS_ITEM_ID, SEPARATOR)
  {
    assert '%' !in ALL_APPS_ITEM_ID;
    NoPercentNoSeparator(ALL_APPS_ITEM_ID);
  }

  /**
   * Selecting the item of the current application selects it again; without
   * a namespace the selection is all applications.
   */
  lemma SelectionRoundTrip(app: Application)
    requires app.namespace.Some? && app.namespace.value != "" ==>
      DecodableNamespace(app.namespace.value) && !Includes(app.name, SEPARATOR)
    ensures app.namespace.Some? && app.namespace.value != "" ==>
      ApplicationFromItemId(Some(SelectedItemId(app))) == app
    ensures app.namespace.None? || app.namespace.value == "" ==>
      ApplicationFromItemId(Some(SelectedItemId(app))) == Application(ALL_APPS, None)
  {
    if app.namespace.Some? && app.namespace.value != "" {
      DecodeRoundTrip(app.namespace.value, app.name);
    } else {
      AllAppsItemIdHasNoSeparator();
    }
  }

  // ---------------------------------------------------------------------------
  // Options grouped by namespace

  datatype ProtectedApp = ProtectedApp(appName: string, appNamespace: string)

  /** What the card knows of one cluster; `protectedApps` may be absent. */
  datatype ClusterResource = ClusterResource(protectedApps: Option<seq<ProtectedApp>>)

  /**
   * The options object: its keys in insertion order (the order `Object.keys`
   * lists them in) and, per namespace, the application names.
   */
  datatype AppOptions = AppOptions(namespaces: seq<string>, names: map<string, seq<string>>)

  /** The names of the applications in namespace `ns`, in input order. */
  function NamesIn(apps: seq<ProtectedApp>, ns: string): seq<string> {
    if apps == [] then []
    else
      var last := apps[|apps| - 1];
      NamesIn(apps[..|apps| - 1], ns) + if last.appNamespace == ns then [last.appName] else []
  }

  /** The namespaces of the applications, each once, in order of first appearance. */
  function DistinctNamespaces(apps: seq<ProtectedApp>): seq<string> {
    if apps == [] then []
    else
      var seen := DistinctNamespaces(apps[..|apps| - 1]);
      var ns := apps[|apps| - 1].appNamespace;
      if ns in seen then seen else seen + [ns]
  }

  /** The total number of names filed under `keys`. */
  function SumNames(keys: seq<string>, apps: seq<ProtectedApp>): nat {
    if keys == [] then 0 else SumNames(keys[..|keys| - 1], apps) + |NamesIn(apps, keys[|keys| - 1])|
  }

  /** The total number of names in an options object, over its keys. */
  function TotalOptionNames(keys: seq<string>, names: map<string, seq<string>>): nat {
    if keys == [] then 0
    else TotalOptionNames(keys[..|keys| - 1], names) + if keys[|keys| - 1] in names then |names[keys[|keys| - 1]]| else 0
  }

  predicate NoDuplicates(keys: seq<string>) {
    forall i, j :: 0 <= i < j < |keys| ==> keys[i] != keys[j]
  }

  /** Some application lives in namespace `ns`. */
  ghost predicate HasNamespace(apps: seq<ProtectedApp>, ns: string) {
    exists i :: 0 <= i < |apps| && apps[i].appNamespace == ns
  }

  /** Each namespace of an application is listed, once, and nothing else is. */
  lemma {:induction false} DistinctNamespacesSpec(apps: seq<ProtectedApp>)
    ensures NoDuplicates(DistinctNamespaces(apps))
    ensures forall ns :: ns in DistinctNamespaces(apps) <==> HasNamespace(apps, ns)
  {
    if apps != [] {
      var init := apps[..|apps| - 1];
      DistinctNamespacesSpec(init);
      forall ns ensures HasNamespace(apps, ns) <==> HasNamespace(init, ns) || apps[|apps| - 1].appNamespace == ns
      {
        if HasNamespace(apps, ns) {
          var i :| 0 <= i < |apps| && apps[i].appNamespace == ns;
          if i < |init| {
            assert init[i] == apps[i];
          }
        }
        if HasNamespace(init, ns) {
          var i :| 0 <= i < |init| && init[i].appNamespace == ns;
          assert apps[i] == init[i];
        }
      }
    }
  }

  /** A namespace has names exactly when some application is in it. */
  lemma {:induction false} NamesInEmptyIff(apps: seq<ProtectedApp>, ns: string)
    ensures NamesIn(apps, ns) == [] <==> ns !in DistinctNamespaces(apps)
  {
    if apps != [] {
      NamesInEmptyIff(apps[..|apps| - 1], ns);
    }
  }

  /** Every application's name is filed under its own namespace. */
  lemma {:induction false} AppListedUnderItsNamespace(apps: seq<ProtectedApp>, i: int)
    requires 0 <= i < |apps|
    ensures apps[i].appName in NamesIn(apps, apps[i].appNamespace)
  {
    var init := apps[..|apps| - 1];
    if i < |apps| - 1 {
      assert init[i] == apps[i];
      AppListedUnderItsNamespace(init, i);
    }
  }

  lemma {:induction false} SumNamesOtherApp(keys: seq<string>, apps: seq<ProtectedApp>, a: ProtectedApp)
    requires a.appNamespace !in keys
    ensures SumNames(keys, apps + [a]) == SumNames(keys, apps)
  {
    if keys != [] {
      SumNamesOtherApp(keys[..|keys| - 1], apps, a);
      assert (apps + [a])[..|apps|] == apps;
    }
  }

  lemma {:induction false} SumNamesOwnApp(keys: seq<string>, apps: seq<ProtectedApp>, a: ProtectedApp)
    requires NoDuplicates(keys) && a.appNamespace in keys
    ensures SumNames(keys, apps + [a]) == SumNames(keys, apps) + 1
  {
    var init := keys[..|keys| - 1];
    var last := keys[|keys| - 1];
    assert (apps + [a])[..|apps|] == apps;
    if last == a.appNamespace {
      assert a.appNamespace !in init;
      SumNamesOtherApp(init, apps, a);
    } else {
      assert a.appNamespace in init;
      SumNamesOwnApp(init, apps, a);
    }
  }

  /** The names under all namespaces together are as many as the applications. */
  lemma {:induction false} SumNamesCountsApps(apps: seq<ProtectedApp>)
    ensures SumNames(DistinctNamespaces(apps), apps) == |apps|
  {
    if apps != [] {
      var init := apps[..|apps| - 1];
      var a := apps[|apps| - 1];
      var seen := DistinctNamespaces(init);
      assert apps == init + [a];
      SumNamesCountsApps(init);
      DistinctNamespacesSpec(init);
      if a.appNamespace in seen {
        SumNamesOwnApp(seen, init, a);
      } else {
        SumNamesOtherApp(seen, init, a);
        NamesInEmptyIff(init, a.appNamespace);
      }
    }
  }

  lemma {:induction false} TotalOptionNamesIsSumNames(keys: seq<string>, names: map<string, seq<string>>, apps: seq<ProtectedApp>)
    requires forall k :: k in keys ==> k in names && names[k] == NamesIn(apps, k)
    ensures TotalOptionNames(keys, names) == SumNames(keys, apps)
  {
    if keys != [] {
      TotalOptionNamesIsSumNames(keys[..|keys| - 1], names, apps);
    }
  }

  /**
   * The options `reduce`: each protected application's name is pushed onto
   * the list of its namespace, creating the list on the namespace's first
   * appearance.
   */
  method GroupByNamespace(apps: seq<ProtectedApp>) returns (options: AppOptions)
    ensures options.namespaces == DistinctNamespaces(apps)
    ensures forall ns :: ns in options.names <==> ns in options.namespaces
    ensures forall ns :: ns in options.names ==> options.names[ns] == NamesIn(apps, ns)
    ensures TotalOptionNames(options.namespaces, options.names) == |apps|
  {
    options := AppOptions([], map[]);
    for i := 0 to |apps|
      invariant options.namespaces == DistinctNamespaces(apps[..i])
      invariant forall ns :: ns in options.names <==> ns in options.namespaces
      invariant forall ns :: ns in options.names ==> options.names[ns] == NamesIn(apps[..i], ns)
    {
      var app := apps[i];
      assert apps[..i + 1][..i] == apps[..i];
      if app.appNamespace !in options.names {
        NamesInEmptyIff(apps[..i], app.appNamespace);
        options := AppOptions(options.namespaces + [app.appNamespace],
                              options.names[app.appNamespace := [app.appName]]);
      } else {
        options := options.(names := options.names[app.appNamespace := options.names[app.appNamespace] + [app.appName]]);
      }
    }
    assert apps[..|apps|] == apps;
    TotalOptionNamesIsSumNames(options.namespaces, options.names, apps);
    SumNamesCountsApps(apps);
  }

  /** The dropdown's options for a cluster; an unknown cluster, or one without protected applications, has none. */
  method AppDropdownOptions(clusterResources: map<string, ClusterResource>, clusterName: string)
    returns (options: AppOptions)
    ensures clusterName !in clusterResources || clusterResources[clusterName].protectedApps.None? ==>
      options == AppOptions([], map[])
    ensures clusterName in clusterResources && clusterResources[clusterName].protectedApps.Some? ==>
      var apps := clusterResources[clusterName].protectedApps.value;
      && options.namespaces == DistinctNamespaces(apps)
      && (forall ns :: ns in options.names <==> ns in options.namespaces)
      && (forall ns :: ns in options.names ==> options.names[ns] == NamesIn(apps, ns))
      && TotalOptionNames(options.namespaces, options.names) == |apps|
  {
    if clusterName in clusterResources && clusterResources[clusterName].protectedApps.Some? {
      options := GroupByNamespace(clusterResources[clusterName].protectedApps.value);
    } else {
      options := AppOptions([], map[]);
    }
  }
}
