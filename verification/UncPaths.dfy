/** UNC paths: a parser, a parent function and a breadcrumb builder. */
module UncPaths {
  import opened Options
  import opened Seqs
  import opened Text

  const SEPARATOR: char := '\\'
  const UNC_PREFIX: string := "\\\\"

  datatype UncParts = UncParts(server: string, share: string, segments: seq<string>)

  function ReplaceSlashes(s: string): (r: string)
    ensures |r| == |s|
    ensures forall i :: 0 <= i < |s| ==> r[i] == if s[i] == '/' then SEPARATOR else s[i]
  {
    if |s| == 0 then "" else [if s[0] == '/' then SEPARATOR else s[0]] + ReplaceSlashes(s[1..])
  }

  predicate NotEmpty(s: string) {
    s != ""
  }

  /** The non-empty components of what follows the prefix, or nothing when there is no prefix. */
  function Components(raw: string): Option<seq<string>> {
    var text := ReplaceSlashes(Trim(raw));
    if UNC_PREFIX <= text then Some(Filter(NotEmpty, Split(text[2..], SEPARATOR))) else None
  }

  function ParseUncPath(raw: string): Option<UncParts> {
    match Components(raw)
    case None => None
    case Some(parts) => if |parts| < 2 then None else Some(UncParts(parts[0], parts[1], parts[2..]))
  }

  function RootOf(parts: UncParts): string {
    UNC_PREFIX + parts.server + [SEPARATOR] + parts.share
  }

  function ShareRootPath(raw: string): Option<string> {
    match ParseUncPath(raw)
    case None => None
    case Some(parts) => Some(RootOf(parts))
  }

  /** A path written out: the share root, then the segments. */
  function Render(parts: UncParts): string {
    Join([RootOf(parts)] + parts.segments, SEPARATOR)
  }

  function ParentPath(raw: string): Option<string> {
    match ParseUncPath(raw)
    case None => None
    case Some(parts) =>
      if |parts.segments| == 0 then None
      else Some(Join([RootOf(parts)] + parts.segments[..|parts.segments| - 1], SEPARATOR))
  }

  // ------------------------------------------------------------------------- breadcrumbs

  datatype Page = ServerPage | SharePage | DirectoryPage

  /** A link as the page it opens and the key it carries; the encoding into a URL is left abstract. */
  datatype Href = Href(page: Page, key: string)

  datatype Crumb = Crumb(caption: string, href: Option<Href>, kind: Page)

  function SegmentCrumb(parts: UncParts, i: nat): Crumb
    requires i < |parts.segments|
  {
    Crumb(parts.segments[i],
          if i == |parts.segments| - 1 then None
          else Some(Href(DirectoryPage, Render(parts.(segments := parts.segments[..i + 1])))),
          DirectoryPage)
  }

  function SegmentCrumbs(parts: UncParts): (r: seq<Crumb>)
    ensures |r| == |parts.segments|
    ensures forall i :: 0 <= i < |r| ==> r[i] == SegmentCrumb(parts, i)
  {
    seq(|parts.segments|, i requires 0 <= i < |parts.segments| => SegmentCrumb(parts, i))
  }

  function CrumbsOf(parts: UncParts): seq<Crumb> {
    [Crumb(parts.server, Some(Href(ServerPage, parts.server)), ServerPage),
     Crumb(parts.share, Some(Href(SharePage, RootOf(parts))), SharePage),
     Crumb(parts.share + " (root directory)",
           if parts.segments == [] then None else Some(Href(DirectoryPage, RootOf(parts))),
           DirectoryPage)]
    + SegmentCrumbs(parts)
  }

  function Breadcrumb(path: string): seq<Crumb> {
    match ParseUncPath(path)
    case None => []
    case Some(parts) => CrumbsOf(parts)
  }

  method ResourceBreadcrumb(path: string) returns (crumbs: seq<Crumb>)
    ensures crumbs == Breadcrumb(path)
  {
    var parsed := ParseUncPath(path);
    if parsed.None? {
      return [];
    }
    var parts := parsed.value;
    var root := UNC_PREFIX + parts.server + [SEPARATOR] + parts.share;
    var atRoot := |parts.segments| == 0;
    crumbs := [
      Crumb(parts.server, Some(Href(ServerPage, parts.server)), ServerPage),
      Crumb(parts.share, Some(Href(SharePage, root)), SharePage),
      Crumb(parts.share + " (root directory)",
            if atRoot then None else Some(Href(DirectoryPage, root)), DirectoryPage)];
    ghost var head := crumbs;
    var walked := root;
    for index := 0 to |parts.segments|
      invariant walked == Render(parts.(segments := parts.segments[..index]))
      invariant crumbs == head + SegmentCrumbs(parts)[..index]
    {
      RenderSnoc(parts, index);
      walked := walked + [SEPARATOR] + parts.segments[index];
      var last := index == |parts.segments| - 1;
      var href := if last then None else Some(Href(DirectoryPage, walked));
      crumbs := crumbs + [Crumb(parts.segments[index], href, DirectoryPage)];
      assert SegmentCrumbs(parts)[..index + 1] == SegmentCrumbs(parts)[..index] + [SegmentCrumb(parts, index)];
    }
    assert SegmentCrumbs(parts)[..|parts.segments|] == SegmentCrumbs(parts);
  }

  lemma {:induction false} JoinSnoc(parts: seq<string>, last: string, sep: char)
    requires |parts| >= 1
    ensures Join(parts + [last], sep) == Join(parts, sep) + [sep] + last
  {
    if |parts| == 1 {
      assert (parts + [last])[1..] == [last];
    } else {
      assert (parts + [last])[1..] == parts[1..] + [last];
      JoinSnoc(parts[1..], last, sep);
    }
  }

  lemma RenderSnoc(parts: UncParts, i: nat)
    requires i < |parts.segments|
    ensures Render(parts.(segments := parts.segments[..i + 1]))
            == Render(parts.(segments := parts.segments[..i])) + [SEPARATOR] + parts.segments[i]
  {
    assert parts.segments[..i + 1] == parts.segments[..i] + [parts.segments[i]];
    assert [RootOf(parts)] + parts.segments[..i + 1] == ([RootOf(parts)] + parts.segments[..i]) + [parts.segments[i]];
    JoinSnoc([RootOf(parts)] + parts.segments[..i], parts.segments[i], SEPARATOR);
  }

  // ------------------------------------------------------------------- parsing a rendering

  /** A component as the parser produces them: not empty and free of both separators. */
  predicate Clean(s: string) {
    s != "" && SEPARATOR !in s && '/' !in s
  }

  /** The server, the share and the segments in one list. */
  function AllOf(parts: UncParts): seq<string> {
    [parts.server, parts.share] + parts.segments
  }

  predicate AllClean(comps: seq<string>) {
    forall c :: c in comps ==> Clean(c)
  }

  /** A path of these components. */
  function Spell(comps: seq<string>): string {
    UNC_PREFIX + Join(comps, SEPARATOR)
  }

  lemma JoinPrefix(p: string, parts: seq<string>, sep: char)
    requires |parts| >= 1
    ensures Join([p + parts[0]] + parts[1..], sep) == p + Join(parts, sep)
  {
    if |parts| > 1 {
      assert ([p + parts[0]] + parts[1..])[1..] == parts[1..];
    }
  }

  lemma RenderSpells(parts: UncParts)
    ensures Render(parts) == Spell(AllOf(parts))
  {
    var sh := [parts.share] + parts.segments;
    assert AllOf(parts)[1..] == sh;
    JoinPrefix(UNC_PREFIX + parts.server + [SEPARATOR], sh, SEPARATOR);
    assert sh[1..] == parts.segments;
    assert RootOf(parts) == UNC_PREFIX + parts.server + [SEPARATOR] + parts.share;
  }

  lemma ReplaceSlashesId(s: string)
    requires '/' !in s
    ensures ReplaceSlashes(s) == s
  {
    assert forall i :: 0 <= i < |s| ==> s[i] in s;
  }

  /** The components with the white space at the very end of the path trimmed away. */
  function TrimLast(comps: seq<string>): seq<string>
    requires |comps| >= 1
  {
    var last := comps[|comps| - 1];
    comps[..|comps| - 1] + if AllSpace(last) then [] else [TrimRight(last)]
  }

  /** Trimming a spelled path reaches only into its last component. */
  lemma TrimSpell(comps: seq<string>)
    requires |comps| >= 1
    ensures Trim(Spell(comps)) == Spell(comps[..|comps| - 1] + [TrimRight(comps[|comps| - 1])])
  {
    var rest, last := comps[..|comps| - 1], comps[|comps| - 1];
    var lead := if |rest| == 0 then UNC_PREFIX else Spell(rest) + [SEPARATOR];
    assert comps == rest + [last];
    if |rest| > 0 {
      JoinSnoc(rest, last, SEPARATOR);
      JoinSnoc(rest, TrimRight(last), SEPARATOR);
    }
    assert Spell(comps) == lead + last;
    assert Spell(rest + [TrimRight(last)]) == lead + TrimRight(last);
    assert !IsSpace(SEPARATOR) && Spell(comps)[0] == UNC_PREFIX[0] == SEPARATOR;
    assert TrimLeft(Spell(comps)) == Spell(comps);
    TrimRightAppend(lead, last);
    TrimRightBlank(last);
    TrimRightLength(lead);
    assert lead + "" == lead;
  }

  lemma TextOfSpell(comps: seq<string>)
    requires |comps| >= 1 && AllClean(comps)
    ensures var rest, t := comps[..|comps| - 1], TrimRight(comps[|comps| - 1]);
            && ReplaceSlashes(Trim(Spell(comps))) == Spell(rest + [t])
            && (forall c :: c in rest + [t] ==> SEPARATOR !in c && '/' !in c)
            && (forall c :: c in rest ==> Clean(c))
  {
    var rest, t := comps[..|comps| - 1], TrimRight(comps[|comps| - 1]);
    TrimRightLength(comps[|comps| - 1]);
    SeparatorFree(comps, t);
    TrimSpell(comps);
    JoinNoSlashAfterTrim(rest, t);
    ReplaceSlashesId(Spell(rest + [t]));
  }

  /** What the parser sees of a spelled path: its components, the last one trimmed. */
  lemma ComponentsOfSpell(comps: seq<string>)
    requires |comps| >= 1 && AllClean(comps)
    ensures Components(Spell(comps)) == Some(TrimLast(comps))
  {
    TextOfSpell(comps);
    TrimRightBlank(comps[|comps| - 1]);
    PartsOfSpell(comps[..|comps| - 1], TrimRight(comps[|comps| - 1]));
  }

  lemma PartsOfSpell(rest: seq<string>, t: string)
    requires forall c :: c in rest + [t] ==> SEPARATOR !in c
    requires forall c :: c in rest ==> c != ""
    ensures UNC_PREFIX <= Spell(rest + [t])
    ensures Filter(NotEmpty, Split(Spell(rest + [t])[2..], SEPARATOR)) == rest + if t == "" then [] else [t]
  {
    var seen := rest + [t];
    assert Spell(seen)[2..] == Join(seen, SEPARATOR);
    SplitJoin(seen, SEPARATOR);
    FilterAppend(NotEmpty, rest, [t]);
    FilterAll(NotEmpty, rest);
    assert Filter(NotEmpty, [t][1..]) == [];
  }

  lemma SeparatorFree(comps: seq<string>, t: string)
    requires |comps| >= 1 && AllClean(comps) && t <= comps[|comps| - 1]
    ensures forall c :: c in comps[..|comps| - 1] + [t] ==> SEPARATOR !in c && '/' !in c
    ensures forall c :: c in comps[..|comps| - 1] ==> Clean(c)
  {
    var last := comps[|comps| - 1];
    assert last in comps;
    forall ch | ch in t ensures ch in last {
      var i :| 0 <= i < |t| && t[i] == ch;
      assert last[i] == ch;
    }
    assert SEPARATOR !in t && '/' !in t;
    var rest := comps[..|comps| - 1];
    forall c | c in rest ensures Clean(c) {
      assert c in comps;
    }
    forall c | c in rest + [t] ensures SEPARATOR !in c && '/' !in c {
      assert c in rest || c == t;
    }
  }

  lemma {:induction false} JoinNoSlashAfterTrim(rest: seq<string>, t: string)
    requires forall c :: c in rest + [t] ==> '/' !in c
    ensures '/' !in Spell(rest + [t])
  {
    var all := rest + [t];
    if |rest| == 0 {
      assert t in all;
    } else {
      assert all[0] in all;
      assert all[1..] == rest[1..] + [t];
      assert forall c :: c in rest[1..] + [t] ==> c in all;
      JoinNoSlashAfterTrim(rest[1..], t);
      assert Spell(rest[1..] + [t])[2..] == Join(rest[1..] + [t], SEPARATOR);
    }
  }

  /** Everything the parser returns is clean, and no longer than what it was given. */
  lemma ParseIsClean(raw: string)
    requires ParseUncPath(raw).Some?
    ensures AllClean(AllOf(ParseUncPath(raw).value))
    ensures Components(raw) == Some(AllOf(ParseUncPath(raw).value))
    ensures |Render(ParseUncPath(raw).value)| <= |Trim(raw)|
  {
    var text := ReplaceSlashes(Trim(raw));
    var split := Split(text[2..], SEPARATOR);
    var comps := Filter(NotEmpty, split);
    SplitFree(text[2..], SEPARATOR);
    SplitKeepsChars(text[2..], SEPARATOR);
    var parts := ParseUncPath(raw).value;
    assert AllOf(parts) == comps;
    forall c | c in comps ensures Clean(c) {
      assert c in split;
      assert forall ch :: ch in c ==> ch in text[2..];
      assert forall ch :: ch in text[2..] ==> ch in text;
    }
    JoinSplit(text[2..], SEPARATOR);
    JoinFilterShrinks(split);
    RenderSpells(parts);
  }

  lemma {:induction false} SplitKeepsChars(s: string, sep: char)
    ensures forall p, ch :: p in Split(s, sep) && ch in p ==> ch in s
  {
    if |s| == 0 {
    } else {
      SplitKeepsChars(s[1..], sep);
      var rest := Split(s[1..], sep);
      assert s == [s[0]] + s[1..];
      assert rest[0] in rest;
    }
  }

  lemma {:induction false} JoinFilterShrinks(parts: seq<string>)
    ensures |Join(Filter(NotEmpty, parts), SEPARATOR)| <= |Join(parts, SEPARATOR)|
  {
    if |parts| == 1 {
      assert parts == [parts[0]] && Filter(NotEmpty, parts[1..]) == [];
    } else if |parts| > 1 {
      JoinFilterShrinks(parts[1..]);
      var kept := Filter(NotEmpty, parts[1..]);
      assert Join(parts, SEPARATOR) == parts[0] + [SEPARATOR] + Join(parts[1..], SEPARATOR);
      if NotEmpty(parts[0]) {
        var all := [parts[0]] + kept;
        assert all[1..] == kept && Filter(NotEmpty, parts) == all;
      } else {
        assert Filter(NotEmpty, parts) == kept;
      }
    }
  }

  // ------------------------------------------------------------------------ main results

  /** Parts the parser gives back unchanged once they are rendered. */
  predicate Canonical(parts: UncParts) {
    && AllClean(AllOf(parts))
    && !EndsInSpace(AllOf(parts)[|AllOf(parts)| - 1])
  }

  /**
   * Parsing undoes rendering exactly when every component is non-empty and free of both
   * separators, and the last does not end in white space.
   */
  lemma ParseRenderIff(parts: UncParts)
    ensures ParseUncPath(Render(parts)) == Some(parts) <==> Canonical(parts)
  {
    var comps := AllOf(parts);
    var last := comps[|comps| - 1];
    RenderSpells(parts);
    TrimRightLength(last);
    if AllClean(comps) {
      ComponentsOfSpell(comps);
      assert last in comps;
      TrimRightBlank(last);
      if Canonical(parts) {
        assert TrimLast(comps) == comps;
      } else {
        assert |TrimLast(comps)| < |comps| || TrimLast(comps)[|comps| - 1] != last;
      }
    }
    if ParseUncPath(Render(parts)) == Some(parts) {
      ParseIsClean(Render(parts));
    }
  }

  /** The parent drops the last segment; what its own parse says is that path, its end trimmed. */
  lemma ParentComponents(raw: string)
    requires ParentPath(raw).Some?
    ensures var comps := AllOf(ParseUncPath(raw).value);
            && |comps| >= 3 && AllClean(comps)
            && ParentPath(raw) == Some(Spell(comps[..|comps| - 1]))
            && Components(ParentPath(raw).value) == Some(TrimLast(comps[..|comps| - 1]))
  {
    var parts := ParseUncPath(raw).value;
    var comps := AllOf(parts);
    ParseIsClean(raw);
    var up := parts.(segments := parts.segments[..|parts.segments| - 1]);
    RenderSpells(up);
    assert AllOf(up) == comps[..|comps| - 1];
    assert forall c :: c in comps[..|comps| - 1] ==> c in comps;
    ComponentsOfSpell(comps[..|comps| - 1]);
  }

  /**
   * For every path at all, its parent has strictly fewer segments or no parse, and it parses to
   * exactly the path without its last segment if and only if what is now last does not end in
   * white space.
   */
  lemma ParentShrinks(raw: string)
    requires ParentPath(raw).Some?
    ensures var parts := ParseUncPath(raw).value;
            var up := ParseUncPath(ParentPath(raw).value);
            && (up.None? || |up.value.segments| < |parts.segments|)
            && (up == Some(parts.(segments := parts.segments[..|parts.segments| - 1]))
                <==> !EndsInSpace(AllOf(parts)[|AllOf(parts)| - 2]))
  {
    ParentComponents(raw);
    var parts := ParseUncPath(raw).value;
    var comps := AllOf(parts);
    var kept := comps[..|comps| - 1];
    var up := parts.(segments := parts.segments[..|parts.segments| - 1]);
    RenderSpells(up);
    assert AllOf(up) == kept;
    ParseRenderIff(up);
    assert kept[|kept| - 1] == comps[|comps| - 2];
  }

  function SegmentCount(raw: string): nat {
    match ParseUncPath(raw)
    case None => 0
    case Some(parts) => |parts.segments| + 1
  }

  /** Every ancestor in turn. That this is a function at all is that climbing always ends. */
  function Climb(raw: string): seq<string>
    decreases SegmentCount(raw)
  {
    match ParentPath(raw)
    case None => []
    case Some(up) => ParentShrinks(raw); [up] + Climb(up)
  }

  /** The link targets of the directory crumbs among the first `k`, deepest first. */
  function LinksBack(crumbs: seq<Crumb>, k: nat): seq<string>
    requires k <= |crumbs|
  {
    if k == 0 then []
    else
      var last := crumbs[k - 1];
      (if last.kind.DirectoryPage? && last.href.Some? then [last.href.value.key] else []) + LinksBack(crumbs, k - 1)
  }

  /** The paths from these components up to the share root. */
  function Ancestry(comps: seq<string>): seq<string> {
    if |comps| < 2 then [] else [Spell(comps)] + Ancestry(comps[..|comps| - 1])
  }

  /** Climbing from a spelled path visits its ancestry exactly when no segment is all white space. */
  lemma {:induction false} ClimbIsAncestryIff(comps: seq<string>)
    requires |comps| >= 2 && AllClean(comps)
    ensures Climb(Spell(comps)) == Ancestry(comps[..|comps| - 1])
            <==> forall i :: 2 <= i < |comps| ==> !AllSpace(comps[i])
  {
    var n := |comps| - 1;
    var rest := comps[..n];
    if n == 1 {
      RootHasNoParent(comps);
    } else {
      assert forall c :: c in rest ==> c in comps;
      ClimbIsAncestryIff(rest);
      ClimbStep(comps);
      SolidSnoc(comps);
    }
  }

  lemma RootHasNoParent(comps: seq<string>)
    requires |comps| == 2 && AllClean(comps)
    ensures Climb(Spell(comps)) == [] && Ancestry(comps[..1]) == []
  {
    ComponentsOfSpell(comps);
    assert ParentPath(Spell(comps)).None?;
  }

  lemma SolidSnoc(comps: seq<string>)
    requires |comps| >= 3
    ensures var rest := comps[..|comps| - 1];
            (forall i :: 2 <= i < |comps| ==> !AllSpace(comps[i]))
            <==> !AllSpace(comps[|comps| - 1]) && forall i :: 2 <= i < |rest| ==> !AllSpace(rest[i])
  {
    var rest := comps[..|comps| - 1];
    assert forall i :: 2 <= i < |rest| ==> rest[i] == comps[i];
  }

  lemma ClimbStep(comps: seq<string>)
    requires |comps| >= 3 && AllClean(comps)
    ensures var rest := comps[..|comps| - 1];
            Climb(Spell(comps)) == Ancestry(rest)
            <==> !AllSpace(comps[|comps| - 1]) && Climb(Spell(rest)) == Ancestry(rest[..|rest| - 1])
  {
    var rest := comps[..|comps| - 1];
    var x, above := Spell(rest), Ancestry(rest[..|rest| - 1]);
    assert Ancestry(rest) == [x] + above;
    if AllSpace(comps[|comps| - 1]) {
      BlankLastSkips(comps);
    } else {
      SolidLastClimbs(comps);
      SameTail(x, Climb(x), above);
    }
  }

  lemma SameTail(x: string, s: seq<string>, t: seq<string>)
    ensures [x] + s == [x] + t <==> s == t
  {
    assert ([x] + s)[1..] == s && ([x] + t)[1..] == t;
  }

  lemma SolidLastClimbs(comps: seq<string>)
    requires |comps| >= 3 && AllClean(comps) && !AllSpace(comps[|comps| - 1])
    ensures var up := Spell(comps[..|comps| - 1]); Climb(Spell(comps)) == [up] + Climb(up)
  {
    ComponentsOfSpell(comps);
    ParentOfSpell(comps, TrimLast(comps));
    assert TrimLast(comps)[..|comps| - 1] == comps[..|comps| - 1];
  }

  /** A blank last segment is not there for the parser, so the climb skips a directory. */
  lemma BlankLastSkips(comps: seq<string>)
    requires |comps| >= 3 && AllClean(comps) && AllSpace(comps[|comps| - 1])
    ensures Climb(Spell(comps)) == [] || Climb(Spell(comps))[0] != Spell(comps[..|comps| - 1])
  {
    ComponentsOfSpell(comps);
    var kept := comps[..|comps| - 1];
    assert TrimLast(comps) == kept;
    if |kept| > 2 {
      ParentOfSpell(comps, kept);
      assert kept == kept[..|kept| - 1] + [kept[|kept| - 1]];
      JoinSnoc(kept[..|kept| - 1], kept[|kept| - 1], SEPARATOR);
    }
  }

  lemma ParentOfSpell(comps: seq<string>, seen: seq<string>)
    requires |comps| >= 1 && |seen| >= 3 && Components(Spell(comps)) == Some(seen)
    ensures ParentPath(Spell(comps)) == Some(Spell(seen[..|seen| - 1]))
  {
    var parts := ParseUncPath(Spell(comps)).value;
    var up := parts.(segments := parts.segments[..|parts.segments| - 1]);
    RenderSpells(up);
    assert AllOf(up) == seen[..|seen| - 1];
  }

  /** The trail has a crumb per server, share, root and segment, and only the last is not a link. */
  lemma BreadcrumbShape(path: string)
    requires ParseUncPath(path).Some?
    ensures var n := |ParseUncPath(path).value.segments|;
            var crumbs := Breadcrumb(path);
            && |crumbs| == 3 + n
            && forall i :: 0 <= i < |crumbs| ==> (crumbs[i].href == None <==> i == |crumbs| - 1)
  {
  }

  /** The path down to the `k`-th segment, as its components. */
  lemma RenderPrefix(parts: UncParts, k: nat)
    requires k <= |parts.segments|
    ensures Render(parts.(segments := parts.segments[..k])) == Spell(AllOf(parts)[..2 + k])
  {
    var some := parts.(segments := parts.segments[..k]);
    RenderSpells(some);
    assert AllOf(some) == AllOf(parts)[..2 + k];
  }

  lemma RenderRoot(parts: UncParts)
    ensures RootOf(parts) == Spell(AllOf(parts)[..2])
  {
    RenderPrefix(parts, 0);
    assert parts.segments[..0] == [];
  }

  lemma AncestryStep(comps: seq<string>, k: nat)
    requires 2 <= k <= |comps|
    ensures Ancestry(comps[..k]) == [Spell(comps[..k])] + Ancestry(comps[..k - 1])
  {
    PrefixOfPrefix(comps, k, k - 1);
  }

  /** The server and the share link to no directory. */
  lemma NoDirectoryAbove(parts: UncParts)
    ensures LinksBack(CrumbsOf(parts), 2) == []
  {
    var crumbs := CrumbsOf(parts);
    assert crumbs[0].kind.ServerPage? && crumbs[1].kind.SharePage?;
    assert LinksBack(crumbs, 1) == LinksBack(crumbs, 0);
  }

  /** The crumb of a segment that is not the last links to the path down to it. */
  lemma LinkOfSegment(parts: UncParts, k: nat)
    requires 0 < k < |parts.segments|
    ensures LinksBack(CrumbsOf(parts), 3 + k) == [Spell(AllOf(parts)[..2 + k])] + LinksBack(CrumbsOf(parts), 2 + k)
  {
    RenderPrefix(parts, k);
    assert CrumbsOf(parts)[2 + k] == SegmentCrumb(parts, k - 1);
  }

  lemma LinkOfRoot(parts: UncParts)
    requires 0 < |parts.segments|
    ensures LinksBack(CrumbsOf(parts), 3) == [Spell(AllOf(parts)[..2])] + Ancestry(AllOf(parts)[..1])
  {
    RenderRoot(parts);
    NoDirectoryAbove(parts);
    assert CrumbsOf(parts)[2].href == Some(Href(DirectoryPage, RootOf(parts)));
  }

  lemma {:induction false} LinksOfSegments(parts: UncParts, k: nat)
    requires k < |parts.segments|
    ensures LinksBack(CrumbsOf(parts), 3 + k) == Ancestry(AllOf(parts)[..2 + k])
  {
    AncestryStep(AllOf(parts), 2 + k);
    if k == 0 {
      LinkOfRoot(parts);
    } else {
      LinksOfSegments(parts, k - 1);
      LinkOfSegment(parts, k);
    }
  }

  /** Read backwards, the directory links: none at a share root, else the ancestry of all but the last segment. */
  lemma DirectoryLinks(parts: UncParts)
    ensures var n := |parts.segments|;
            LinksBack(CrumbsOf(parts), 3 + n) == if n == 0 then [] else Ancestry(AllOf(parts)[..1 + n])
  {
    var crumbs, n := CrumbsOf(parts), |parts.segments|;
    if n == 0 {
      assert LinksBack(crumbs, 2) == LinksBack(crumbs, 1) == LinksBack(crumbs, 0) == [];
    } else {
      LinksOfSegments(parts, n - 1);
      assert crumbs[2 + n] == SegmentCrumb(parts, n - 1);
    }
  }

  /**
   * The breadcrumb and the parent function agree: read backwards, the directory links are the
   * parent, the parent of that, and so on to the share root, exactly when no segment but the last
   * is nothing but white space.
   */
  lemma BreadcrumbClimbsIff(path: string)
    requires ParseUncPath(path).Some?
    ensures var segs := ParseUncPath(path).value.segments;
            LinksBack(Breadcrumb(path), |Breadcrumb(path)|) == Climb(path)
            <==> forall i :: 0 <= i < |segs| - 1 ==> !AllSpace(segs[i])
  {
    var parts := ParseUncPath(path).value;
    var n := |parts.segments|;
    DirectoryLinks(parts);
    assert |Breadcrumb(path)| == 3 + n;
    if n > 0 {
      ClimbsFromParent(path);
      SegmentsOfUp(parts, AllOf(parts)[..1 + n]);
    }
  }

  /** Climbing from a path with segments is its parent, then climbing from there. */
  lemma ClimbsFromParent(path: string)
    requires ParseUncPath(path).Some? && |ParseUncPath(path).value.segments| > 0
    ensures var comps := AllOf(ParseUncPath(path).value);
            var up := comps[..|comps| - 1];
            Climb(path) == Ancestry(up) <==> forall i :: 2 <= i < |up| ==> !AllSpace(up[i])
  {
    ParseIsClean(path);
    ParentComponents(path);
    var comps := AllOf(ParseUncPath(path).value);
    var up := comps[..|comps| - 1];
    assert forall c :: c in up ==> c in comps;
    ClimbIsAncestryIff(up);
    SameTail(Spell(up), Climb(Spell(up)), Ancestry(up[..|up| - 1]));
  }

  lemma SegmentsOfUp(parts: UncParts, up: seq<string>)
    requires |parts.segments| >= 1 && up == AllOf(parts)[..1 + |parts.segments|]
    ensures (forall i :: 2 <= i < |up| ==> !AllSpace(up[i]))
            <==> (forall i :: 0 <= i < |parts.segments| - 1 ==> !AllSpace(parts.segments[i]))
  {
    assert forall i :: 0 <= i < |parts.segments| - 1 ==> up[i + 2] == parts.segments[i];
    if forall i :: 0 <= i < |parts.segments| - 1 ==> !AllSpace(parts.segments[i]) {
      forall i | 2 <= i < |up| ensures !AllSpace(up[i]) {
        assert up[i] == parts.segments[i - 2];
      }
    }
  }

  lemma {:induction false} AncestryEnds(comps: seq<string>)
    requires |comps| >= 2
    ensures |Ancestry(comps)| == |comps| - 1
    ensures Ancestry(comps)[|comps| - 2] == Spell(comps[..2])
  {
    if |comps| == 2 {
      assert Ancestry(comps[..1]) == [] && comps[..2] == comps;
    } else {
      AncestryEnds(comps[..|comps| - 1]);
      PrefixOfPrefix(comps, |comps| - 1, 2);
    }
  }

  /** Where the two agree, climbing takes one step per segment and ends at the share root. */
  lemma ClimbReachesRoot(path: string)
    requires ParseUncPath(path).Some? && |ParseUncPath(path).value.segments| > 0
    requires var segs := ParseUncPath(path).value.segments; forall i :: 0 <= i < |segs| - 1 ==> !AllSpace(segs[i])
    ensures var n := |ParseUncPath(path).value.segments|;
            && |Climb(path)| == n
            && ShareRootPath(path) == Some(Climb(path)[n - 1])
  {
    var parts := ParseUncPath(path).value;
    var n, comps := |parts.segments|, AllOf(parts);
    ClimbsFromParent(path);
    SegmentsOfUp(parts, comps[..1 + n]);
    AncestryEnds(comps[..1 + n]);
    PrefixOfPrefix(comps, 1 + n, 2);
    RenderRoot(parts);
  }

  const BLANK_INSIDE: UncParts := UncParts("s", "h", [" ", "a"])

  lemma BlankInsideSpelled()
    ensures Render(BLANK_INSIDE) == "\\\\s\\h\\ \\a"
  {
    assert RootOf(BLANK_INSIDE) == "\\\\s\\h";
    assert Join([" ", "a"], SEPARATOR) == " \\a" by {
      assert [" ", "a"][1..] == ["a"];
    }
    var all := [RootOf(BLANK_INSIDE)] + BLANK_INSIDE.segments;
    assert all[1..] == [" ", "a"];
  }

  lemma BlankInsideCanonical()
    ensures Canonical(BLANK_INSIDE)
  {
    var all := AllOf(BLANK_INSIDE);
    assert all == ["s", "h", " ", "a"];
    forall c | c in all ensures Clean(c) {
      var i :| 0 <= i < |all| && all[i] == c;
      assert |c| == 1 && c[0] != SEPARATOR && c[0] != '/';
    }
  }

  /** A directory named with a blank: its crumb is there, and climbing goes past it. */
  lemma BlankSegmentIsSkipped()
    ensures var path := "\\\\s\\h\\ \\a";
            && ParseUncPath(path) == Some(BLANK_INSIDE)
            && LinksBack(Breadcrumb(path), |Breadcrumb(path)|) != Climb(path)
  {
    var path := Render(BLANK_INSIDE);
    BlankInsideSpelled();
    BlankInsideCanonical();
    ParseRenderIff(BLANK_INSIDE);
    var segs := BLANK_INSIDE.segments;
    assert 0 < |segs| - 1 && AllSpace(segs[0]);
    BreadcrumbClimbsIff(path);
  }

  // ----------------------------------------------------------------- what is read and shown

  predicate IsSeparator(c: char) {
    c == '\\' || c == '/'
  }

  /**
   * The text is read as these components: runs without separators, in order, with any number of
   * either separator between, before and behind them.
   */
  ghost predicate ReadsAs(text: string, comps: seq<string>)
    decreases |text|
  {
    if text == "" then comps == []
    else if IsSeparator(text[0]) then ReadsAs(text[1..], comps)
    else
      && |comps| > 0 && comps[0] != "" && comps[0] <= text
      && (forall c :: c in comps[0] ==> !IsSeparator(c))
      && (|comps[0]| < |text| ==> IsSeparator(text[|comps[0]|]))
      && ReadsAs(text[|comps[0]|..], comps[1..])
  }

  lemma ReplacedIs(s: string, i: nat)
    requires i < |s|
    ensures ReplaceSlashes(s)[i] == SEPARATOR <==> IsSeparator(s[i])
    ensures ReplaceSlashes(s)[i] != SEPARATOR ==> ReplaceSlashes(s)[i] == s[i]
  {
  }

  /** The first run of a text, up to its first separator. */
  function FirstRun(text: string): nat
    ensures FirstRun(text) <= |text|
  {
    if text == "" || IsSeparator(text[0]) then 0 else 1 + FirstRun(text[1..])
  }

  lemma {:induction false} FirstRunEnds(text: string)
    ensures forall i :: 0 <= i < FirstRun(text) ==> !IsSeparator(text[i])
    ensures FirstRun(text) < |text| ==> IsSeparator(text[FirstRun(text)])
  {
    if text == "" || IsSeparator(text[0]) {
    } else {
      FirstRunEnds(text[1..]);
      assert forall i :: 1 <= i < FirstRun(text) ==> text[i] == text[1..][i - 1];
    }
  }

  lemma {:induction false} ReplaceAppend(s: string, t: string)
    ensures ReplaceSlashes(s + t) == ReplaceSlashes(s) + ReplaceSlashes(t)
  {
    assert |ReplaceSlashes(s + t)| == |s + t|;
  }

  /** The components the parser finds in a text. */
  function Runs(text: string): seq<string> {
    Filter(NotEmpty, Split(ReplaceSlashes(text), SEPARATOR))
  }

  /** A separator at the front changes nothing. */
  lemma RunsSkip(text: string)
    requires text != "" && IsSeparator(text[0])
    ensures Runs(text) == Runs(text[1..])
  {
    var r := ReplaceSlashes(text);
    assert r[0] == SEPARATOR && r[1..] == ReplaceSlashes(text[1..]);
    FilterCons(NotEmpty, "", Split(r[1..], SEPARATOR));
  }

  /** The first run is not touched by making the separators one. */
  lemma RunReplaced(text: string)
    ensures var n := FirstRun(text);
            && SEPARATOR !in text[..n]
            && ReplaceSlashes(text) == text[..n] + ReplaceSlashes(text[n..])
  {
    var head, behind := text[..FirstRun(text)], text[FirstRun(text)..];
    FirstRunEnds(text);
    assert text == head + behind;
    ReplaceAppend(head, behind);
    NothingReplaced(head);
  }

  lemma NothingReplaced(s: string)
    requires forall i :: 0 <= i < |s| ==> !IsSeparator(s[i])
    ensures SEPARATOR !in s && ReplaceSlashes(s) == s
  {
    forall i | 0 <= i < |s| ensures ReplaceSlashes(s)[i] == s[i] {
      ReplacedIs(s, i);
    }
  }

  /** A separator at the front splits off an empty part. */
  lemma SplitSkip(text: string)
    requires text != "" && IsSeparator(text[0])
    ensures ReplaceSlashes(text) == [SEPARATOR] + ReplaceSlashes(text[1..])
    ensures Runs(text) == Filter(NotEmpty, Split(ReplaceSlashes(text[1..]), SEPARATOR))
  {
    RunsSkip(text);
  }

  /** The first run is the first component, and the rest is read from behind it. */
  lemma RunsTake(text: string)
    requires text != "" && !IsSeparator(text[0])
    ensures var n := FirstRun(text);
            n > 0 && Runs(text) == [text[..n]] + Runs(text[n..])
  {
    var n := FirstRun(text);
    var head, behind := text[..n], text[n..];
    RunReplaced(text);
    FirstRunEnds(text);
    if behind == "" {
      assert ReplaceSlashes(behind) == "" && head + "" == head;
      SplitSingle(head, SEPARATOR);
      FilterOne(NotEmpty, head);
      FilterOne(NotEmpty, "");
    } else {
      var rest := ReplaceSlashes(behind[1..]);
      SplitSkip(behind);
      ConcatAssociative(head, [SEPARATOR], rest);
      SplitHead(head, rest, SEPARATOR);
      FilterCons(NotEmpty, head, Split(rest, SEPARATOR));
    }
  }

  /** The components found are exactly what the text reads as. */
  lemma {:induction false} RunsIff(text: string, comps: seq<string>)
    ensures Runs(text) == comps <==> ReadsAs(text, comps)
    decreases |text|
  {
    if text == "" {
      assert Split("", SEPARATOR) == [""];
      FilterCons(NotEmpty, "", []);
      assert Runs(text) == [];
    } else if IsSeparator(text[0]) {
      RunsSkip(text);
      RunsIff(text[1..], comps);
    } else {
      RunsTake(text);
      FirstRunEnds(text);
      var n := FirstRun(text);
      if |comps| > 0 {
        RunsIff(text[n..], comps[1..]);
        assert comps == [comps[0]] + comps[1..];
        SameRun(text, comps[0]);
      }
    }
  }

  /** The first run is the one beginning without a separator that a separator or the end follows. */
  lemma SameRun(text: string, comp: string)
    requires text != "" && !IsSeparator(text[0])
    ensures && comp != "" && comp <= text && (forall c :: c in comp ==> !IsSeparator(c))
            && (|comp| < |text| ==> IsSeparator(text[|comp|]))
            <==> comp == text[..FirstRun(text)]
  {
    var n := FirstRun(text);
    FirstRunEnds(text);
    if comp <= text && |comp| < n {
      assert !IsSeparator(text[|comp|]);
    }
    if comp <= text && |comp| > n {
      assert comp[n] == text[n] && comp[n] in comp;
    }
    assert n > 0;
  }

  /**
   * A path is read exactly when, white space at both ends aside, it begins with two separators of
   * either kind and what follows reads as at least two components; the first is the server, the
   * second the share, and the others the segments.
   */
  lemma ParsedIff(raw: string, parts: UncParts)
    ensures ParseUncPath(raw) == Some(parts)
            <==> var text := Trim(raw);
                 && |text| >= 2 && IsSeparator(text[0]) && IsSeparator(text[1])
                 && ReadsAs(text[2..], [parts.server, parts.share] + parts.segments)
  {
    var text := Trim(raw);
    var all := [parts.server, parts.share] + parts.segments;
    ParsedFrom(raw, parts);
    PrefixIff(text);
    if |text| >= 2 {
      RunsIff(text[2..], all);
    }
  }

  /** The parts are the first two components and the others. */
  lemma ParsedFrom(raw: string, parts: UncParts)
    ensures ParseUncPath(raw) == Some(parts) <==> Components(raw) == Some([parts.server, parts.share] + parts.segments)
  {
    var all := [parts.server, parts.share] + parts.segments;
    assert all[0] == parts.server && all[1] == parts.share && all[2..] == parts.segments;
    if Components(raw).Some? && |Components(raw).value| >= 2 {
      var found := Components(raw).value;
      assert found == [found[0], found[1]] + found[2..];
    }
  }

  /** The prefix is two separators, and the components are those of what follows. */
  lemma PrefixIff(text: string)
    ensures UNC_PREFIX <= ReplaceSlashes(text) <==> |text| >= 2 && IsSeparator(text[0]) && IsSeparator(text[1])
    ensures |text| >= 2 ==> ReplaceSlashes(text)[2..] == ReplaceSlashes(text[2..])
  {
    if |text| >= 2 {
      ReplacedIs(text, 0);
      ReplacedIs(text, 1);
      assert text == text[..2] + text[2..];
      ReplaceAppend(text[..2], text[2..]);
    }
  }

  /** The crumbs name the server, the share, the share's own directory and each segment, in that order. */
  lemma CrumbsRead(path: string, i: nat)
    requires ParseUncPath(path).Some? && i < |ParseUncPath(path).value.segments|
    ensures var parts := ParseUncPath(path).value;
            var crumbs := Breadcrumb(path);
            && |crumbs| == 3 + |parts.segments|
            && crumbs[3 + i].caption == parts.segments[i] && crumbs[3 + i].kind == DirectoryPage
            && (i < |parts.segments| - 1 ==>
                  crumbs[3 + i].href == Some(Href(DirectoryPage, Spell(AllOf(parts)[..3 + i]))))
  {
    RenderPrefix(ParseUncPath(path).value, i + 1);
  }

  /** The first three lead to the server, to the share and to the directory it publishes. */
  lemma RootCrumbsRead(path: string)
    requires ParseUncPath(path).Some?
    ensures var parts := ParseUncPath(path).value;
            var crumbs := Breadcrumb(path);
            var root := "\\\\" + parts.server + "\\" + parts.share;
            && crumbs[0] == Crumb(parts.server, Some(Href(ServerPage, parts.server)), ServerPage)
            && crumbs[1] == Crumb(parts.share, Some(Href(SharePage, root)), SharePage)
            && crumbs[2].caption == parts.share + " (root directory)" && crumbs[2].kind == DirectoryPage
            && (parts.segments != [] ==> crumbs[2].href == Some(Href(DirectoryPage, root)))
            && ShareRootPath(path) == Some(root)
  {
  }

  /** What is not a path has no trail. */
  lemma NoTrail(path: string)
    requires ParseUncPath(path).None?
    ensures Breadcrumb(path) == [] && ShareRootPath(path) == None && ParentPath(path) == None
  {
  }
}
