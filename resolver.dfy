/** Resolution of the active presentation into one colour per keyboard LED:
    label stripping, the two binding filters, the group lookup and the casts
    into 8-bit channels. Everything here is a pure function of its inputs. */
module ColorResolver {
  import opened Wrappers
  import opened Pp7

  /** An LED colour as the lighting controller takes it. */
  datatype Rgb = Rgb(red: u8, green: u8, blue: u8)

  /** The three settings the resolver reads. */
  datatype LedSettings = LedSettings(ledColors: bool, ledOn: i64, ledDim: i64)

  /** A uniform gray: every channel at level `v`. */
  function Gray(v: u8): (c: Rgb)
    ensures c.red == v && c.green == v && c.blue == v
  {
    Rgb(v, v, v)
  }

  // ---------------------------------------------------------------------
  // Key labels

  /** The prefix the keyboard puts in front of every LED name. */
  const KeyPrefix: string := "Key: "

  predicate OccursAt(s: string, pat: string, k: int)
  {
    0 <= k && k + |pat| <= |s| && s[k..k + |pat|] == pat
  }

  ghost predicate Occurs(s: string, pat: string)
  {
    exists k :: OccursAt(s, pat, k)
  }

  /** String replacement of every occurrence of `pat` by the empty string:
      a left-to-right scan that skips past each match and does not rescan
      what the removal brings together. */
  function RemoveAll(s: string, pat: string): (r: string)
    requires pat != []
    ensures |r| <= |s|
    decreases |s|
  {
    if |s| < |pat| then s
    else if s[..|pat|] == pat then RemoveAll(s[|pat|..], pat)
    else [s[0]] + RemoveAll(s[1..], pat)
  }

  /** An occurrence in the tail is an occurrence one place further on, and an
      occurrence not at the front is one in the tail. */
  lemma OccursInTail(s: string, pat: string)
    requires s != []
    ensures Occurs(s[1..], pat) ==> Occurs(s, pat)
    ensures Occurs(s, pat) && !OccursAt(s, pat, 0) ==> Occurs(s[1..], pat)
  {
    var t := s[1..];
    if Occurs(t, pat) {
      var k :| OccursAt(t, pat, k);
      assert s[k + 1..k + 1 + |pat|] == t[k..k + |pat|];
      assert OccursAt(s, pat, k + 1);
    }
    if Occurs(s, pat) && !OccursAt(s, pat, 0) {
      var k :| OccursAt(s, pat, k);
      assert t[k - 1..k - 1 + |pat|] == s[k..k + |pat|];
      assert OccursAt(t, pat, k - 1);
    }
  }

  /** Removal shortens a string exactly when the pattern occurs in it, and
      leaves it untouched otherwise. */
  lemma {:induction false} RemoveAllChangesIffOccurs(s: string, pat: string)
    requires pat != []
    ensures Occurs(s, pat) ==> |RemoveAll(s, pat)| < |s|
    ensures !Occurs(s, pat) ==> RemoveAll(s, pat) == s
    decreases |s|
  {
    if |s| < |pat| {
    } else if s[..|pat|] == pat {
      assert OccursAt(s, pat, 0);
    } else {
      var t := s[1..];
      RemoveAllChangesIffOccurs(t, pat);
      OccursInTail(s, pat);
      assert [s[0]] + t == s;
    }
  }

  /** A pattern whose first character does not recur in it cannot overlap a
      copy of itself, so a match never straddles its boundary. */
  predicate LeadCharUnique(pat: string)
  {
    pat != [] && forall j :: 0 < j < |pat| ==> pat[j] != pat[0]
  }

  /** When `a` does not start with the pattern, neither does `a + pat + b`
      (the pattern cannot overlap itself), so both removals keep the first
      character of `a` and continue one place further on. */
  lemma RemoveAllKeepsLead(a: string, pat: string, b: string)
    requires LeadCharUnique(pat) && a != []
    requires !(|a| >= |pat| && a[..|pat|] == pat)
    ensures RemoveAll(a + pat + b, pat) == [a[0]] + RemoveAll(a[1..] + pat + b, pat)
    ensures RemoveAll(a, pat) == [a[0]] + RemoveAll(a[1..], pat)
  {
    var s := a + pat + b;
    if |a| < |pat| {
      // the window at the start would need pat[0] at position |a|
      assert s[|a|] == pat[0];
      assert s[..|pat|][|a|] == s[|a|];
      assert [a[0]] + a[1..] == a;
    } else {
      assert s[..|pat|] == a[..|pat|];
    }
    assert s[1..] == a[1..] + pat + b;
  }

  /** A leading match is removed and the scan resumes right after it. */
  lemma RemoveAllDropsLeadingMatch(pat: string, t: string)
    requires pat != []
    ensures RemoveAll(pat + t, pat) == RemoveAll(t, pat)
  {
    var s := pat + t;
    assert s[..|pat|] == pat;
    assert s[|pat|..] == t;
  }

  /** The splitting step past a leading match of `a`, given the split of
      the rest of `a`. */
  lemma SplitsPastLeadingMatch(a: string, pat: string, b: string)
    requires pat != [] && |a| >= |pat| && a[..|pat|] == pat
    requires RemoveAll(a[|pat|..] + pat + b, pat) == RemoveAll(a[|pat|..], pat) + RemoveAll(b, pat)
    ensures RemoveAll(a + pat + b, pat) == RemoveAll(a, pat) + RemoveAll(b, pat)
  {
    var rest := a[|pat|..];
    assert a == pat + rest;
    assert a + pat + b == pat + (rest + pat + b);
    RemoveAllDropsLeadingMatch(pat, rest + pat + b);
    RemoveAllDropsLeadingMatch(pat, rest);
  }

  /** The splitting step past a first character of `a` that starts no
      match, given the split of the rest of `a`. */
  lemma SplitsPastLead(a: string, pat: string, b: string)
    requires LeadCharUnique(pat) && a != []
    requires !(|a| >= |pat| && a[..|pat|] == pat)
    requires RemoveAll(a[1..] + pat + b, pat) == RemoveAll(a[1..], pat) + RemoveAll(b, pat)
    ensures RemoveAll(a + pat + b, pat) == RemoveAll(a, pat) + RemoveAll(b, pat)
  {
    RemoveAllKeepsLead(a, pat, b);
    var x, y := RemoveAll(a[1..], pat), RemoveAll(b, pat);
    assert [a[0]] + (x + y) == ([a[0]] + x) + y;
  }

  /** Every occurrence is removed, wherever it stands: an occurrence in the
      middle splits the removal into two independent halves. */
  lemma {:induction false} RemoveAllSplits(a: string, pat: string, b: string)
    requires LeadCharUnique(pat)
    ensures RemoveAll(a + pat + b, pat) == RemoveAll(a, pat) + RemoveAll(b, pat)
    decreases |a|
  {
    if a == [] {
      assert a + pat + b == pat + b;
      RemoveAllDropsLeadingMatch(pat, b);
    } else if |a| >= |pat| && a[..|pat|] == pat {
      RemoveAllSplits(a[|pat|..], pat, b);
      SplitsPastLeadingMatch(a, pat, b);
    } else {
      RemoveAllSplits(a[1..], pat, b);
      SplitsPastLead(a, pat, b);
    }
  }

  lemma KeyPrefixLeadCharUnique()
    ensures LeadCharUnique(KeyPrefix)
  {
    assert KeyPrefix == ['K', 'e', 'y', ':', ' '];
  }

  /** The label of a key: its LED name with every `"Key: "` removed. */
  function KeyLabel(ledName: string): (keyName: string)
    ensures |keyName| <= |ledName|
  {
    RemoveAll(ledName, KeyPrefix)
  }

  /** A label differs from its LED name exactly when the name contains the
      prefix; an occurrence anywhere is removed, not only a leading one. */
  lemma KeyLabelRemovesEveryPrefix(ledName: string, a: string, b: string)
    ensures KeyLabel(ledName) == ledName <==> !Occurs(ledName, KeyPrefix)
    ensures KeyLabel(a + KeyPrefix + b) == KeyLabel(a) + KeyLabel(b)
  {
    RemoveAllChangesIffOccurs(ledName, KeyPrefix);
    KeyPrefixLeadCharUnique();
    RemoveAllSplits(a, KeyPrefix, b);
  }

  /** Removal is one pass: it can join the pieces of a new prefix. */
  lemma KeyLabelIsSinglePass()
    ensures KeyLabel("KeKey: y: A") == "Key: A"
  {
    KeyPrefixLeadCharUnique();
    RemoveAllSplits("Ke", KeyPrefix, "y: A");
    assert "Ke" + KeyPrefix + "y: A" == "KeKey: y: A";
    assert RemoveAll("Ke", KeyPrefix) == "Ke";
    assert RemoveAll("y: A", KeyPrefix) == "y: A";
  }

  // ---------------------------------------------------------------------
  // Binding filters and the group lookup

  /** The names of the snapshot's groups, duplicates kept, in order. */
  function GroupNames(groups: seq<PresentationGroup>): (names: seq<string>)
    ensures |names| == |groups| && forall k :: 0 <= k < |groups| ==> names[k] == groups[k].name
  {
    seq(|groups|, k requires 0 <= k < |groups| => groups[k].name)
  }

  /** Bindings whose group is among the active group names, in table order. */
  function ActiveBindings(binds: seq<PP7KeyBind>, names: seq<string>): (active: seq<PP7KeyBind>)
    ensures forall b :: b in active <==> b in binds && b.bind in names
    ensures |active| <= |binds|
  {
    if binds == [] then []
    else (if binds[0].bind in names then [binds[0]] else []) + ActiveBindings(binds[1..], names)
  }

  /** A binding names a key by its keyName or by its LED index. */
  predicate BindMatchesKey(b: PP7KeyBind, keyName: string, i: nat)
    ensures b.key == keyName ==> BindMatchesKey(b, keyName, i)
    ensures b.num == i ==> BindMatchesKey(b, keyName, i)
    ensures BindMatchesKey(b, keyName, i) ==> b.key == keyName || b.num == i
  {
    b.key == keyName || b.num == i
  }

  /** The active bindings that name the key `(keyName, i)`, in table order. */
  function KeyMatches(active: seq<PP7KeyBind>, keyName: string, i: nat): (matches: seq<PP7KeyBind>)
    ensures forall b :: b in matches <==> b in active && BindMatchesKey(b, keyName, i)
    ensures |matches| <= |active|
  {
    if active == [] then []
    else (if BindMatchesKey(active[0], keyName, i) then [active[0]] else []) + KeyMatches(active[1..], keyName, i)
  }

  /** The group names of the matched bindings. */
  function BindNames(matches: seq<PP7KeyBind>): (names: seq<string>)
    ensures |names| == |matches| && forall k :: 0 <= k < |matches| ==> names[k] == matches[k].bind
  {
    seq(|matches|, k requires 0 <= k < |matches| => matches[k].bind)
  }

  /** `g` is the first group, in snapshot order, whose name is in `names`. */
  ghost predicate IsFirstNamedIn(groups: seq<PresentationGroup>, names: seq<string>, g: PresentationGroup)
  {
    exists k :: (0 <= k < |groups| && groups[k] == g && groups[k].name in names &&
      forall j :: 0 <= j < k ==> groups[j].name !in names)
  }

  /** Iterator `find` over the snapshot's groups. */
  function FindGroup(groups: seq<PresentationGroup>, names: seq<string>): (g: Option<PresentationGroup>)
    ensures g.None? <==> forall k :: 0 <= k < |groups| ==> groups[k].name !in names
    ensures g.Some? ==> IsFirstNamedIn(groups, names, g.value)
  {
    if groups == [] then None
    else if groups[0].name in names then Some(groups[0])
    else
      var rest := FindGroup(groups[1..], names);
      assert rest.Some? ==> IsFirstNamedIn(groups, names, rest.value) by {
        if rest.Some? {
          var k :| 0 <= k < |groups[1..]| && groups[1..][k] == rest.value && groups[1..][k].name in names &&
            forall j :: 0 <= j < k ==> groups[1..][j].name !in names;
          assert forall j :: 0 <= j < k + 1 ==> groups[j].name !in names by {
            forall j | 0 <= j < k + 1 ensures groups[j].name !in names {
              if j > 0 { assert groups[j] == groups[1..][j - 1]; }
            }
          }
        }
      }
      assert rest.None? ==> forall k :: 0 <= k < |groups| ==> groups[k].name !in names by {
        if rest.None? {
          forall k | 0 <= k < |groups| ensures groups[k].name !in names {
            if k > 0 { assert groups[k] == groups[1..][k - 1]; }
          }
        }
      }
      rest
  }

  /** The lookup depends on the names only as a set. */
  lemma {:induction false} FindGroupDependsOnMembership(groups: seq<PresentationGroup>, names1: seq<string>, names2: seq<string>)
    requires forall n :: n in names1 <==> n in names2
    ensures FindGroup(groups, names1) == FindGroup(groups, names2)
  {
    if groups != [] && groups[0].name !in names1 {
      FindGroupDependsOnMembership(groups[1..], names1, names2);
    }
  }

  /** The `unwrap()` on the group lookup never fails: a matched binding passed
      the active-group filter, so some group carries its name. */
  lemma UnwrapNeverFails(groups: seq<PresentationGroup>, active: seq<PP7KeyBind>, keyName: string, i: nat)
    requires forall b :: b in active ==> b.bind in GroupNames(groups)
    ensures KeyMatches(active, keyName, i) != [] ==> FindGroup(groups, BindNames(KeyMatches(active, keyName, i))).Some?
  {
    var matches := KeyMatches(active, keyName, i);
    if matches != [] {
      var b := matches[0];
      assert b in active;
      var k :| 0 <= k < |groups| && GroupNames(groups)[k] == b.bind;
      assert BindNames(matches)[0] == b.bind;
      assert groups[k].name in BindNames(matches);
    }
  }

  // ---------------------------------------------------------------------
  // Casts into 8-bit channels

  /** `as u8` on an `i64`: keeps the low eight bits. */
  function AsU8(x: i64): (b: u8)
    ensures (x as int - b as int) % 0x100 == 0
    ensures 0 <= x < 0x100 ==> b as int == x as int
  {
    (x as int % 0x100) as u8
  }

  /** `as u8` on a float: truncates toward zero and saturates into 0..255. */
  function FloatAsU8(x: real): (b: u8)
    ensures 0.0 <= x < 256.0 ==> b as real <= x < b as real + 1.0
    ensures x < 1.0 ==> b == 0
    ensures x >= 255.0 ==> b == 255
  {
    if x <= 0.0 then 0
    else if x >= 255.0 then 255
    else x.Floor as u8
  }

  /** One channel: `(c * 255.0) as u8`. */
  function ChannelToByte(c: real): (b: u8)
    ensures 0.0 <= c <= 1.0 ==> b as real <= c * 255.0 < b as real + 1.0
    ensures c * 255.0 < 1.0 ==> b == 0
    ensures c >= 1.0 ==> b == 255
  {
    FloatAsU8(c * 255.0)
  }

  /** On the documented range a channel becomes `c * 255` rounded down; no
      rounding to nearest takes place. */
  lemma ChannelToByteTruncates(c: real)
    requires 0.0 <= c <= 1.0
    ensures ChannelToByte(c) as int == (c * 255.0).Floor
    ensures c == 0.0 ==> ChannelToByte(c) == 0
    ensures c == 1.0 ==> ChannelToByte(c) == 255
  {
  }

  /** The three colour channels, each converted; alpha is dropped. */
  function ToRgb(c: PP7Color): (rgb: Rgb)
    ensures InUnitRange(c) ==> (rgb.red as int == (c.red * 255.0).Floor &&
      rgb.green as int == (c.green * 255.0).Floor && rgb.blue as int == (c.blue * 255.0).Floor)
  {
    Rgb(ChannelToByte(c.red), ChannelToByte(c.green), ChannelToByte(c.blue))
  }

  /** The gray of a null group colour becomes 127 in every channel, not 128. */
  lemma NullColorIsGray127()
    ensures ToRgb(NullColor) == Gray(127)
  {
    assert 127.0 <= 0.5 * 255.0 < 128.0;
  }

  // ---------------------------------------------------------------------
  // The frame

  /** Colour of the key with keyName `keyName` at LED index `i`, given the
      bindings that survived the active-group filter. */
  function KeyColor(groups: seq<PresentationGroup>, active: seq<PP7KeyBind>, s: LedSettings, keyName: string, i: nat): (color: Rgb)
    requires forall b :: b in active ==> b.bind in GroupNames(groups)
    ensures (forall b :: b in active ==> !BindMatchesKey(b, keyName, i)) ==> color == Gray(AsU8(s.ledDim))
    ensures (exists b :: b in active && BindMatchesKey(b, keyName, i)) && !s.ledColors ==> color == Gray(AsU8(s.ledOn))
    ensures (exists b :: b in active && BindMatchesKey(b, keyName, i)) && s.ledColors ==>
      exists g :: IsFirstNamedIn(groups, BindNames(KeyMatches(active, keyName, i)), g) && color == ToRgb(g.color)
  {
    var matches := KeyMatches(active, keyName, i);
    if matches != [] then
      assert matches[0] in matches;
      if s.ledColors then
        UnwrapNeverFails(groups, active, keyName, i);
        var g := FindGroup(groups, BindNames(matches)).value;
        ToRgb(g.color)
      else
        Gray(AsU8(s.ledOn))
    else
      Gray(AsU8(s.ledDim))
  }

  /** One colour per LED, in LED index order. */
  function ResolveFrame(pres: Presentation, binds: seq<PP7KeyBind>, ledNames: seq<string>, s: LedSettings): (frame: seq<Rgb>)
    ensures |frame| == |ledNames|
  {
    var names := GroupNames(pres.groups);
    var active := ActiveBindings(binds, names);
    seq(|ledNames|, i requires 0 <= i < |ledNames| => KeyColor(pres.groups, active, s, KeyLabel(ledNames[i]), i))
  }

  /** Reference description of the resolver, free of the filters: the key
      `(keyName, i)` is bound to group name `name` when some binding for a group
      of the snapshot carries that name and names the key. */
  ghost predicate BindsKeyTo(groups: seq<PresentationGroup>, binds: seq<PP7KeyBind>, keyName: string, i: nat, name: string)
  {
    exists b :: b in binds && b.bind == name && name in GroupNames(groups) && BindMatchesKey(b, keyName, i)
  }

  ghost predicate KeyIsBound(groups: seq<PresentationGroup>, binds: seq<PP7KeyBind>, keyName: string, i: nat)
  {
    exists b :: b in binds && b.bind in GroupNames(groups) && BindMatchesKey(b, keyName, i)
  }

  /** A name among the matched names is carried by an active binding that
      names the key. */
  lemma MatchedNameIsBound(groups: seq<PresentationGroup>, binds: seq<PP7KeyBind>, keyName: string, i: nat, n: string)
    requires n in BindNames(KeyMatches(ActiveBindings(binds, GroupNames(groups)), keyName, i))
    ensures BindsKeyTo(groups, binds, keyName, i, n)
  {
    var matches := KeyMatches(ActiveBindings(binds, GroupNames(groups)), keyName, i);
    var k :| 0 <= k < |matches| && BindNames(matches)[k] == n;
    assert matches[k] in matches;
  }

  /** The name of an active binding that names the key is among the matched
      names. */
  lemma BoundNameIsMatched(groups: seq<PresentationGroup>, binds: seq<PP7KeyBind>, keyName: string, i: nat, n: string)
    requires BindsKeyTo(groups, binds, keyName, i, n)
    ensures n in BindNames(KeyMatches(ActiveBindings(binds, GroupNames(groups)), keyName, i))
  {
    var matches := KeyMatches(ActiveBindings(binds, GroupNames(groups)), keyName, i);
    var b :| b in binds && b.bind == n && n in GroupNames(groups) && BindMatchesKey(b, keyName, i);
    assert b in matches;
    var k :| 0 <= k < |matches| && matches[k] == b;
    assert BindNames(matches)[k] == n;
  }

  lemma KeyMatchesAreBound(groups: seq<PresentationGroup>, binds: seq<PP7KeyBind>, keyName: string, i: nat)
    ensures var matches := KeyMatches(ActiveBindings(binds, GroupNames(groups)), keyName, i);
      (matches != [] <==> KeyIsBound(groups, binds, keyName, i)) &&
      forall n :: n in BindNames(matches) <==> BindsKeyTo(groups, binds, keyName, i, n)
  {
    var matches := KeyMatches(ActiveBindings(binds, GroupNames(groups)), keyName, i);
    if matches != [] {
      assert matches[0] in matches;
    }
    if KeyIsBound(groups, binds, keyName, i) {
      var b :| b in binds && b.bind in GroupNames(groups) && BindMatchesKey(b, keyName, i);
      assert b in matches;
    }
    forall n ensures n in BindNames(matches) <==> BindsKeyTo(groups, binds, keyName, i, n) {
      if n in BindNames(matches) {
        MatchedNameIsBound(groups, binds, keyName, i, n);
      }
      if BindsKeyTo(groups, binds, keyName, i, n) {
        BoundNameIsMatched(groups, binds, keyName, i, n);
      }
    }
  }

  /** A key no active binding names is dim, whatever `LedColors` says. */
  lemma UnboundKeyIsDim(pres: Presentation, binds: seq<PP7KeyBind>, ledNames: seq<string>, s: LedSettings, i: nat)
    requires i < |ledNames|
    requires !KeyIsBound(pres.groups, binds, KeyLabel(ledNames[i]), i)
    ensures ResolveFrame(pres, binds, ledNames, s)[i] == Gray(AsU8(s.ledDim))
  {
    KeyMatchesAreBound(pres.groups, binds, KeyLabel(ledNames[i]), i);
  }

  /** A bound key with group colours disabled is lit with the "on" gray. */
  lemma BoundKeyIsOn(pres: Presentation, binds: seq<PP7KeyBind>, ledNames: seq<string>, s: LedSettings, i: nat)
    requires i < |ledNames| && !s.ledColors
    requires KeyIsBound(pres.groups, binds, KeyLabel(ledNames[i]), i)
    ensures ResolveFrame(pres, binds, ledNames, s)[i] == Gray(AsU8(s.ledOn))
  {
    KeyMatchesAreBound(pres.groups, binds, KeyLabel(ledNames[i]), i);
  }

  /** The colour of a bound key with group colours enabled is that of the
      first group, in snapshot order, that one of its bindings names. */
  lemma BoundKeyColorIsFirstGroup(groups: seq<PresentationGroup>, binds: seq<PP7KeyBind>, s: LedSettings, keyName: string, i: nat)
    requires s.ledColors && KeyIsBound(groups, binds, keyName, i)
    ensures exists k :: (0 <= k < |groups| &&
      BindsKeyTo(groups, binds, keyName, i, groups[k].name) &&
      (forall j :: 0 <= j < k ==> !BindsKeyTo(groups, binds, keyName, i, groups[j].name)) &&
      KeyColor(groups, ActiveBindings(binds, GroupNames(groups)), s, keyName, i) == ToRgb(groups[k].color))
  {
    var active := ActiveBindings(binds, GroupNames(groups));
    var matches := KeyMatches(active, keyName, i);
    KeyMatchesAreBound(groups, binds, keyName, i);
    UnwrapNeverFails(groups, active, keyName, i);
    var names := BindNames(matches);
    var g := FindGroup(groups, names).value;
    var k :| 0 <= k < |groups| && groups[k] == g && groups[k].name in names &&
      forall j :: 0 <= j < k ==> groups[j].name !in names;
    assert matches[0] in matches;
    assert KeyColor(groups, active, s, keyName, i) == ToRgb(g.color);
    assert BindsKeyTo(groups, binds, keyName, i, groups[k].name);
    forall j | 0 <= j < k
      ensures !BindsKeyTo(groups, binds, keyName, i, groups[j].name)
    {
      assert groups[j].name !in names;
    }
  }

  /** A bound key with group colours enabled takes the colour of the first
      group, in snapshot order, that one of its bindings names. */
  lemma BoundKeyTakesFirstGroupColor(pres: Presentation, binds: seq<PP7KeyBind>, ledNames: seq<string>, s: LedSettings, i: nat)
    requires i < |ledNames| && s.ledColors
    requires KeyIsBound(pres.groups, binds, KeyLabel(ledNames[i]), i)
    ensures exists k :: (0 <= k < |pres.groups| &&
      BindsKeyTo(pres.groups, binds, KeyLabel(ledNames[i]), i, pres.groups[k].name) &&
      (forall j :: 0 <= j < k ==> !BindsKeyTo(pres.groups, binds, KeyLabel(ledNames[i]), i, pres.groups[j].name)) &&
      ResolveFrame(pres, binds, ledNames, s)[i] == ToRgb(pres.groups[k].color))
  {
    var keyName := KeyLabel(ledNames[i]);
    BoundKeyColorIsFirstGroup(pres.groups, binds, s, keyName, i);
    assert ResolveFrame(pres, binds, ledNames, s)[i] == KeyColor(pres.groups, ActiveBindings(binds, GroupNames(pres.groups)), s, keyName, i);
  }

  /** The frame depends on the binding table only as a set: reordering the
      rows or repeating one changes nothing. */
  lemma FrameIgnoresBindingOrder(pres: Presentation, binds1: seq<PP7KeyBind>, binds2: seq<PP7KeyBind>, ledNames: seq<string>, s: LedSettings)
    requires forall b :: b in binds1 <==> b in binds2
    ensures ResolveFrame(pres, binds1, ledNames, s) == ResolveFrame(pres, binds2, ledNames, s)
  {
    var groups := pres.groups;
    var f1, f2 := ResolveFrame(pres, binds1, ledNames, s), ResolveFrame(pres, binds2, ledNames, s);
    forall i | 0 <= i < |ledNames| ensures f1[i] == f2[i] {
      var keyName := KeyLabel(ledNames[i]);
      KeyMatchesAreBound(groups, binds1, keyName, i);
      KeyMatchesAreBound(groups, binds2, keyName, i);
      var m1 := KeyMatches(ActiveBindings(binds1, GroupNames(groups)), keyName, i);
      var m2 := KeyMatches(ActiveBindings(binds2, GroupNames(groups)), keyName, i);
      assert KeyIsBound(groups, binds1, keyName, i) <==> KeyIsBound(groups, binds2, keyName, i);
      assert forall n :: BindsKeyTo(groups, binds1, keyName, i, n) <==> BindsKeyTo(groups, binds2, keyName, i, n);
      FindGroupDependsOnMembership(groups, BindNames(m1), BindNames(m2));
    }
  }

  /** A single-binding table on a two-key keyboard, with group colours on
      and off. */
  lemma SingleBindingScenario(on: i64, dim: i64)
    ensures var pres := Presentation(PP7Id("u", "song", 0),
                                     [PresentationGroup("Verse", PP7Color(1.0, 0.0, 0.0, 1.0), [])],
                                     false, "", "");
            var binds := [PP7KeyBind("Verse", "A", 0)];
            ResolveFrame(pres, binds, ["Key: A", "Key: B"], LedSettings(true, on, dim)) == [Rgb(255, 0, 0), Gray(AsU8(dim))] &&
            ResolveFrame(pres, binds, ["Key: A", "Key: B"], LedSettings(false, on, dim)) == [Gray(AsU8(on)), Gray(AsU8(dim))]
  {
    var verse := PresentationGroup("Verse", PP7Color(1.0, 0.0, 0.0, 1.0), []);
    var pres := Presentation(PP7Id("u", "song", 0), [verse], false, "", "");
    var binds := [PP7KeyBind("Verse", "A", 0)];
    var leds := ["Key: A", "Key: B"];
    KeyPrefixLeadCharUnique();
    RemoveAllSplits([], KeyPrefix, "A");
    RemoveAllSplits([], KeyPrefix, "B");
    assert [] + KeyPrefix + "A" == leds[0];
    assert [] + KeyPrefix + "B" == leds[1];
    assert KeyLabel(leds[0]) == "A";
    assert KeyLabel(leds[1]) == "B";
    assert GroupNames(pres.groups) == ["Verse"];
    assert ActiveBindings(binds, ["Verse"]) == binds;
    assert KeyMatches(binds, "A", 0) == binds;
    assert KeyMatches(binds, "B", 1) == [];
    assert BindNames(binds) == ["Verse"];
    assert FindGroup(pres.groups, ["Verse"]) == Some(verse);
    assert ToRgb(verse.color) == Rgb(255, 0, 0);
    var colored := ResolveFrame(pres, binds, leds, LedSettings(true, on, dim));
    var plain := ResolveFrame(pres, binds, leds, LedSettings(false, on, dim));
    assert colored[0] == Rgb(255, 0, 0) && colored[1] == Gray(AsU8(dim));
    assert plain[0] == Gray(AsU8(on)) && plain[1] == Gray(AsU8(dim));
  }
}
