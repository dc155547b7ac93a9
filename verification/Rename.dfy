/** Bulk renaming of a directory tree: rename.js. */
module Rename {
  import opened Permutations

  // The file system is the map from paths to nodes.  Renaming a directory moves every path
  // below it, so the order of the plans decides whether a plan's source still names the node
  // it was made for.

  datatype Name = Name(text: string)

  /** The components below the scanned root; the root itself is the empty path. */
  type Path = seq<Name>

  datatype Node = Node(inode: nat)

  datatype Plan = Plan(src: Path, dst: Path)

  function Parent(p: Path): Path { if p == [] then [] else p[..|p| - 1] }

  function BaseName(p: Path): Name { if p == [] then Name("") else p[|p| - 1] }

  /** The length of the path as a string: every component costs its text and one separator. */
  function Length(p: Path): nat {
    if p == [] then 0 else Length(Parent(p)) + 1 + |BaseName(p).text|
  }

  lemma {:induction false} PrefixIsShorter(p: Path, k: nat)
    requires k < |p|
    ensures Length(p[..k]) < Length(p)
  {
    if k < |p| - 1 {
      PrefixIsShorter(Parent(p), k);
      assert Parent(p)[..k] == p[..k];
    }
  }

  // Where a node is once some of the original paths have been renamed.

  /** Every component of `p` whose own original path is in `renamed` carries its new name. */
  function Final(p: Path, renamed: map<Path, Name>): (f: Path)
    ensures |f| == |p|
  {
    if p == [] then []
    else Final(Parent(p), renamed) + [if p in renamed then renamed[p] else BaseName(p)]
  }

  lemma {:induction false} FinalPrefix(p: Path, k: nat, renamed: map<Path, Name>)
    requires k <= |p|
    ensures Final(p, renamed)[..k] == Final(p[..k], renamed)
  {
    if k == |p| {
      assert p[..k] == p;
    } else {
      FinalPrefix(Parent(p), k, renamed);
      assert Parent(p)[..k] == p[..k];
    }
  }

  /** Only paths at least as long as `p` have been renamed, and `p` not. */
  ghost predicate NotYet(p: Path, renamed: map<Path, Name>) {
    p !in renamed && forall q <- renamed :: Length(q) >= Length(p)
  }

  /** Deepest first: when the turn of `p` comes, it still denotes its original node. */
  lemma {:induction false} SourceStaysPut(p: Path, renamed: map<Path, Name>)
    requires NotYet(p, renamed)
    ensures Final(p, renamed) == p
  {
    if p != [] {
      PrefixIsShorter(p, |p| - 1);
      SourceStaysPut(Parent(p), renamed);
    }
  }

  // Moving one node, with all that is below it.

  function Rebase(p: Path, src: Path, dst: Path): Path {
    if src <= p then dst + p[|src|..] else p
  }

  /** A path exists only if its directory does. */
  ghost predicate Rooted(paths: set<Path>) {
    forall p {:trigger Parent(p)} :: p in paths && p != [] ==> Parent(p) in paths
  }

  lemma {:induction false} PrefixExists(paths: set<Path>, p: Path, k: nat)
    requires Rooted(paths) && p in paths && k <= |p|
    ensures p[..k] in paths
  {
    if k == |p| {
      assert p[..k] == p;
    } else {
      PrefixExists(paths, Parent(p), k);
      assert Parent(p)[..k] == p[..k];
    }
  }

  ghost predicate CanMove(paths: set<Path>, src: Path, dst: Path) {
    && Rooted(paths) && src in paths && dst !in paths
    && src != [] && dst != [] && Parent(dst) in paths && !(src <= dst)
  }

  lemma NothingBelow(paths: set<Path>, dst: Path, p: Path)
    requires Rooted(paths) && dst !in paths && p in paths
    ensures !(dst <= p)
  {
    if dst <= p {
      assert p[..|dst|] == dst;
      PrefixExists(paths, p, |dst|);
    }
  }

  lemma RebaseIsUndone(paths: set<Path>, src: Path, dst: Path, p: Path)
    requires CanMove(paths, src, dst) && p in paths
    ensures Rebase(Rebase(p, src, dst), dst, src) == p
  {
    NothingBelow(paths, dst, p);
    if src <= p {
      assert (dst + p[|src|..])[|dst|..] == p[|src|..];
    }
  }

  function Moved(entries: map<Path, Node>, src: Path, dst: Path): map<Path, Node>
    requires CanMove(entries.Keys, src, dst)
  {
    map q | q in (set p | p in entries :: Rebase(p, src, dst)) ::
      MovedHere(entries, src, dst, q);
      entries[Rebase(q, dst, src)]
  }

  lemma MovedHere(entries: map<Path, Node>, src: Path, dst: Path, q: Path)
    requires CanMove(entries.Keys, src, dst) && q in (set p | p in entries :: Rebase(p, src, dst))
    ensures Rebase(q, dst, src) in entries && Rebase(Rebase(q, dst, src), src, dst) == q
  {
    var p :| p in entries && q == Rebase(p, src, dst);
    RebaseIsUndone(entries.Keys, src, dst, p);
  }

  lemma MovedStaysRooted(entries: map<Path, Node>, src: Path, dst: Path)
    requires CanMove(entries.Keys, src, dst)
    ensures Rooted(Moved(entries, src, dst).Keys)
  {
    var moved := Moved(entries, src, dst);
    forall q | q in moved && q != [] ensures Parent(q) in moved {
      var p :| p in entries && q == Rebase(p, src, dst);
      if p == src {
        assert Rebase(Parent(dst), src, dst) == Parent(dst);
        assert Parent(q) == Parent(dst);
      } else {
        assert Rebase(Parent(p), src, dst) == Parent(q);
      }
    }
  }

  // One plan after another.

  /** The paths the nodes have by now. */
  ghost function Places(paths: set<Path>, renamed: map<Path, Name>): set<Path> {
    set p | p in paths :: Final(p, renamed)
  }

  /** One plan: skipped exactly if its target is taken by now. */
  ghost function After(paths: set<Path>, before: map<Path, Name>, plan: Plan): map<Path, Name> {
    if plan.dst in Places(paths, before) then before else before[plan.src := BaseName(plan.dst)]
  }

  /** The renames that the first `n` plans carry out. */
  ghost function Renamed(paths: set<Path>, plans: seq<Plan>, n: nat): map<Path, Name>
    requires n <= |plans|
  {
    if n == 0 then map[] else After(paths, Renamed(paths, plans, n - 1), plans[n - 1])
  }

  /** No two nodes have one path. */
  ghost predicate Apart(paths: set<Path>, renamed: map<Path, Name>) {
    forall p, q :: p in paths && q in paths && Final(p, renamed) == Final(q, renamed) ==> p == q
  }

  /** What renaming `src` to `dst` in its own directory does to the path of every node. */
  lemma RenameRebases(paths: set<Path>, renamed: map<Path, Name>, src: Path, dst: Path, p: Path)
    requires Rooted(paths) && Apart(paths, renamed) && src in paths && src != [] && p in paths
    requires NotYet(src, renamed) && dst != [] && Parent(dst) == Parent(src)
    ensures Final(p, renamed[src := BaseName(dst)]) == Rebase(Final(p, renamed), src, dst)
  {
    SourceStaysPut(src, renamed);
    if src <= p {
      FinalPrefix(p, |src|, renamed);
      assert p[..|src|] == src;
      RenameAbove(renamed, src, dst, p);
    } else {
      RenameElsewhere(renamed, src, BaseName(dst), p);
      StaysElsewhere(paths, renamed, src, p);
    }
  }

  lemma StaysElsewhere(paths: set<Path>, renamed: map<Path, Name>, src: Path, p: Path)
    requires Rooted(paths) && Apart(paths, renamed) && src in paths && p in paths
    requires Final(src, renamed) == src && !(src <= p)
    ensures !(src <= Final(p, renamed))
  {
    if |src| <= |p| {
      FinalPrefix(p, |src|, renamed);
      PrefixExists(paths, p, |src|);
      assert p[..|src|] != src;
      assert Final(p[..|src|], renamed) != Final(src, renamed);
    }
  }

  lemma {:induction false} RenameElsewhere(renamed: map<Path, Name>, src: Path, name: Name, p: Path)
    requires !(src <= p)
    ensures Final(p, renamed[src := name]) == Final(p, renamed)
  {
    if p != [] {
      assert !(src <= Parent(p));
      RenameElsewhere(renamed, src, name, Parent(p));
    }
  }

  lemma {:induction false} RenameAbove(renamed: map<Path, Name>, src: Path, dst: Path, p: Path)
    requires src != [] && src <= p && Final(src, renamed) == src && src !in renamed
    requires dst != [] && Parent(dst) == Parent(src)
    ensures Final(p, renamed[src := BaseName(dst)]) == dst + Final(p, renamed)[|src|..]
  {
    hide Final;
    var after := renamed[src := BaseName(dst)];
    FinalStep(p, renamed);
    FinalStep(p, after);
    if p == src {
      RenameElsewhere(renamed, src, BaseName(dst), Parent(src));
      assert dst == Parent(dst) + [BaseName(dst)];
    } else {
      RenameAbove(renamed, src, dst, Parent(p));
      AppendBelow(dst, Final(p, renamed), |src|);
    }
  }

  lemma FinalStep(p: Path, renamed: map<Path, Name>)
    requires p != []
    ensures var f := Final(p, renamed);
            && f == Final(Parent(p), renamed) + [if p in renamed then renamed[p] else BaseName(p)]
            && f[..|f| - 1] == Final(Parent(p), renamed)
  {
  }

  lemma AppendBelow(dst: Path, f: Path, n: nat)
    requires n < |f|
    ensures dst + f[..|f| - 1][n..] + [f[|f| - 1]] == dst + f[n..]
  {
  }

  lemma RenameKeepsApart(paths: set<Path>, renamed: map<Path, Name>, src: Path, dst: Path)
    requires Rooted(paths) && Apart(paths, renamed) && src in paths && src != []
    requires NotYet(src, renamed) && dst != [] && Parent(dst) == Parent(src) && dst !in Places(paths, renamed)
    ensures Apart(paths, renamed[src := BaseName(dst)])
  {
    var here := Places(paths, renamed);
    FinalStaysRooted(paths, renamed);
    SourceStaysPut(src, renamed);
    CanRename(paths, renamed, src, dst);
    var after := renamed[src := BaseName(dst)];
    forall p, q | p in paths && q in paths && Final(p, after) == Final(q, after) ensures p == q {
      RenameRebases(paths, renamed, src, dst, p);
      RenameRebases(paths, renamed, src, dst, q);
      RebaseIsUndone(here, src, dst, Final(p, renamed));
      RebaseIsUndone(here, src, dst, Final(q, renamed));
    }
  }

  lemma CanRename(paths: set<Path>, renamed: map<Path, Name>, src: Path, dst: Path)
    requires Rooted(paths) && src in paths && src != []
    requires NotYet(src, renamed) && dst != [] && Parent(dst) == Parent(src) && dst !in Places(paths, renamed)
    ensures CanMove(Places(paths, renamed), src, dst)
  {
    FinalStaysRooted(paths, renamed);
    SourceStaysPut(src, renamed);
    FinalPrefix(src, |src| - 1, renamed);
    assert Final(Parent(src), renamed) == Parent(dst);
    assert src != dst;
  }

  lemma FinalStaysRooted(paths: set<Path>, renamed: map<Path, Name>)
    requires Rooted(paths)
    ensures Rooted(Places(paths, renamed))
  {
    forall f | f in Places(paths, renamed) && f != [] ensures Parent(f) in Places(paths, renamed)
    {
      var p :| p in paths && f == Final(p, renamed);
      FinalPrefix(p, |p| - 1, renamed);
      assert Final(Parent(p), renamed) == Parent(f);
    }
  }

  // The plans of one run.

  /** What `buildPlans` makes of a deepest-first list of distinct existing paths. */
  ghost predicate Planned(paths: set<Path>, plans: seq<Plan>) {
    && (forall plan <- plans ::
          plan.src in paths && plan.src != [] && plan.dst != [] && Parent(plan.dst) == Parent(plan.src))
    && (forall i, j :: 0 <= i < j < |plans| ==>
          plans[i].src != plans[j].src && Length(plans[i].src) >= Length(plans[j].src))
  }

  lemma {:induction false} RenamedSources(paths: set<Path>, plans: seq<Plan>, n: nat, src: Path) returns (i: nat)
    requires n <= |plans| && src in Renamed(paths, plans, n)
    ensures i < n && plans[i].src == src && Renamed(paths, plans, n)[src] == BaseName(plans[i].dst)
  {
    assert n > 0;
    i := n - 1;
    var before := Renamed(paths, plans, n - 1);
    if src in before && Renamed(paths, plans, n)[src] == before[src] {
      i := RenamedSources(paths, plans, n - 1, src);
    }
  }

  /** The turn of plan `n`: nothing above its source has been renamed, nor the source itself. */
  lemma TurnComes(paths: set<Path>, plans: seq<Plan>, n: nat)
    requires Planned(paths, plans) && n < |plans|
    ensures NotYet(plans[n].src, Renamed(paths, plans, n))
    ensures Final(plans[n].src, Renamed(paths, plans, n)) == plans[n].src
  {
    var before := Renamed(paths, plans, n);
    forall q | q in before ensures q != plans[n].src && Length(q) >= Length(plans[n].src) {
      var i := RenamedSources(paths, plans, n, q);
    }
    SourceStaysPut(plans[n].src, before);
  }

  /** No plan ever puts two nodes on one path. */
  lemma {:induction false} RunKeepsApart(paths: set<Path>, plans: seq<Plan>, n: nat)
    requires Rooted(paths) && Planned(paths, plans) && n <= |plans|
    ensures Apart(paths, Renamed(paths, plans, n))
  {
    hide Apart, NotYet, After, Final, Length;
    if n == 0 {
      NothingRenamed(paths);
    } else {
      RunKeepsApart(paths, plans, n - 1);
      TurnComes(paths, plans, n - 1);
      assert plans[n - 1] in plans;
      AfterKeepsApart(paths, Renamed(paths, plans, n - 1), plans[n - 1]);
    }
  }

  lemma AfterKeepsApart(paths: set<Path>, before: map<Path, Name>, plan: Plan)
    requires Rooted(paths) && Apart(paths, before) && plan.src in paths && plan.src != []
    requires NotYet(plan.src, before) && plan.dst != [] && Parent(plan.dst) == Parent(plan.src)
    ensures Apart(paths, After(paths, before, plan))
  {
    if plan.dst !in Places(paths, before) {
      RenameKeepsApart(paths, before, plan.src, plan.dst);
    }
  }

  lemma NothingRenamed(paths: set<Path>)
    ensures Apart(paths, map[])
  {
    forall p, q | p in paths && q in paths && Final(p, map[]) == Final(q, map[]) ensures p == q {
      SourceStaysPut(p, map[]);
      SourceStaysPut(q, map[]);
    }
  }

  /** The tree as the renames leave it: every node still there, at the path `Final` gives it. */
  ghost predicate Relocated(original: map<Path, Node>, entries: map<Path, Node>, renamed: map<Path, Name>) {
    && entries.Keys == Places(original.Keys, renamed)
    && forall p :: p in original ==> NodeAt(original, entries, renamed, p)
  }

  ghost predicate NodeAt(original: map<Path, Node>, entries: map<Path, Node>, renamed: map<Path, Name>, p: Path)
    requires p in original
  {
    var f := Final(p, renamed);
    f in entries && entries[f] == original[p]
  }

  lemma MovedForth(entries: map<Path, Node>, src: Path, dst: Path, f: Path)
    requires CanMove(entries.Keys, src, dst) && f in entries
    ensures Rebase(f, src, dst) in Moved(entries, src, dst)
    ensures Moved(entries, src, dst)[Rebase(f, src, dst)] == entries[f]
  {
    RebaseIsUndone(entries.Keys, src, dst, f);
  }

  lemma MoveRelocates(original: map<Path, Node>, entries: map<Path, Node>, renamed: map<Path, Name>,
                      src: Path, dst: Path)
    requires Rooted(original.Keys) && Apart(original.Keys, renamed) && Relocated(original, entries, renamed)
    requires src in original && src != [] && NotYet(src, renamed)
    requires dst != [] && Parent(dst) == Parent(src) && dst !in Places(original.Keys, renamed)
    ensures CanMove(entries.Keys, src, dst)
    ensures Relocated(original, Moved(entries, src, dst), renamed[src := BaseName(dst)])
  {
    CanRename(original.Keys, renamed, src, dst);
    MoveKeepsPlaces(original, entries, renamed, src, dst);
    hide CanMove, Moved, Rebase, Final, Places, Apart, Rooted, NotYet, NodeAt;
    forall p | p in original
      ensures NodeAt(original, Moved(entries, src, dst), renamed[src := BaseName(dst)], p)
    {
      NodeMoves(original, entries, renamed, src, dst, p);
    }
  }

  lemma MoveKeepsPlaces(original: map<Path, Node>, entries: map<Path, Node>, renamed: map<Path, Name>,
                        src: Path, dst: Path)
    requires Rooted(original.Keys) && Apart(original.Keys, renamed) && Relocated(original, entries, renamed)
    requires src in original && src != [] && NotYet(src, renamed) && CanMove(entries.Keys, src, dst)
    requires dst != [] && Parent(dst) == Parent(src)
    ensures Moved(entries, src, dst).Keys == Places(original.Keys, renamed[src := BaseName(dst)])
  {
    hide CanMove, Moved, Rebase, Final, Apart, Rooted, NotYet, Relocated;
    var after := renamed[src := BaseName(dst)];
    forall q | q in Places(original.Keys, after) ensures q in Moved(entries, src, dst) {
      var p :| p in original && q == Final(p, after);
      NodeMoves(original, entries, renamed, src, dst, p);
    }
    hide Places;
    forall q | q in Moved(entries, src, dst) ensures q in Places(original.Keys, after) {
      PlaceHasNode(original, entries, renamed, src, dst, q);
    }
  }

  lemma NodeMoves(original: map<Path, Node>, entries: map<Path, Node>, renamed: map<Path, Name>,
                  src: Path, dst: Path, p: Path)
    requires Rooted(original.Keys) && Apart(original.Keys, renamed) && Relocated(original, entries, renamed)
    requires src in original && src != [] && NotYet(src, renamed) && CanMove(entries.Keys, src, dst)
    requires Parent(dst) == Parent(src) && p in original
    ensures NodeAt(original, Moved(entries, src, dst), renamed[src := BaseName(dst)], p)
  {
    RenameRebases(original.Keys, renamed, src, dst, p);
    assert NodeAt(original, entries, renamed, p);
    MovedForth(entries, src, dst, Final(p, renamed));
    hide Moved, Rebase, Final, CanMove;
  }

  lemma PlaceHasNode(original: map<Path, Node>, entries: map<Path, Node>, renamed: map<Path, Name>,
                     src: Path, dst: Path, q: Path)
    requires Rooted(original.Keys) && Apart(original.Keys, renamed) && Relocated(original, entries, renamed)
    requires src in original && src != [] && NotYet(src, renamed) && CanMove(entries.Keys, src, dst)
    requires Parent(dst) == Parent(src) && q in Moved(entries, src, dst)
    ensures q in Places(original.Keys, renamed[src := BaseName(dst)])
  {
    MovedHere(entries, src, dst, q);
    var p :| p in original && Rebase(q, dst, src) == Final(p, renamed);
    RenameRebases(original.Keys, renamed, src, dst, p);
  }

  /** The number of nodes is conserved. */
  lemma {:induction false} PlacesCount(paths: set<Path>, renamed: map<Path, Name>)
    requires Apart(paths, renamed)
    ensures |Places(paths, renamed)| == |paths|
  {
    if paths == {} {
      assert Places(paths, renamed) == {};
    } else {
      var p :| p in paths;
      OneMorePlace(paths, renamed, p);
      hide Final, Places, Apart;
      PlacesCount(paths - {p}, renamed);
    }
  }

  lemma OneMorePlace(paths: set<Path>, renamed: map<Path, Name>, p: Path)
    requires Apart(paths, renamed) && p in paths
    ensures Apart(paths - {p}, renamed) && Final(p, renamed) !in Places(paths - {p}, renamed)
    ensures Places(paths, renamed) == Places(paths - {p}, renamed) + {Final(p, renamed)}
  {
    hide Final;
  }

  // New names: rules applied in order.

  datatype Rule = Rule(source: string, target: string)

  /** JavaScript's `GetSubstitution` without captures: `$$`, `$&`, `` $` `` and `$'` are not taken literally. */
  function Substitution(target: string, s: string, at: nat, source: string): string
    requires at + |source| <= |s|
  {
    if target == "" then ""
    else if PatternAt(target) then
      (match target[1]
       case '$' => "$"
       case '&' => source
       case '`' => s[..at]
       case _ => s[at + |source|..])
      + Substitution(target[2..], s, at, source)
    else [target[0]] + Substitution(target[1..], s, at, source)
  }

  predicate PatternAt(target: string) {
    |target| >= 2 && target[0] == '$' && target[1] in {'$', '&', '`', '\''}
  }

  predicate HasPattern(target: string) {
    target != "" && (PatternAt(target) || HasPattern(target[1..]))
  }

  /** `s.replaceAll(source, target)` from offset `at` on. */
  function ReplaceFrom(s: string, at: nat, source: string, target: string): string
    requires source != "" && at <= |s|
    decreases |s| - at
  {
    if at + |source| > |s| then s[at..]
    else if s[at..at + |source|] == source then
      Substitution(target, s, at, source) + ReplaceFrom(s, at + |source|, source, target)
    else [s[at]] + ReplaceFrom(s, at + 1, source, target)
  }

  /** The same with the target always copied as it is written. */
  function ReplaceLiterally(s: string, at: nat, source: string, target: string): string
    requires source != "" && at <= |s|
    decreases |s| - at
  {
    if at + |source| > |s| then s[at..]
    else if s[at..at + |source|] == source then target + ReplaceLiterally(s, at + |source|, source, target)
    else [s[at]] + ReplaceLiterally(s, at + 1, source, target)
  }

  /** Where the source is replaced by itself the name stays. */
  lemma {:induction false} ReplacedByItself(s: string, at: nat, source: string)
    requires source != "" && at <= |s|
    ensures ReplaceLiterally(s, at, source, source) == s[at..]
    decreases |s| - at
  {
    if at + |source| <= |s| {
      if s[at..at + |source|] == source {
        ReplacedByItself(s, at + |source|, source);
        assert s[at..] == s[at..at + |source|] + s[at + |source|..];
      } else {
        ReplacedByItself(s, at + 1, source);
        assert s[at..] == [s[at]] + s[at + 1..];
      }
    }
  }

  /** Matches are taken from the left and do not overlap. */
  lemma LeftmostMatches()
    ensures ReplaceLiterally("aaa", 0, "aa", "b") == "ba"
  {
    assert "aaa"[0..2] == "aa" && "aaa"[2..] == "a";
  }

  /** Read from the left, past two characters a pattern, the target refers to what surrounds the match. */
  predicate HasContext(target: string) {
    && target != ""
    && if PatternAt(target) then target[1] in {'`', '\''} || HasContext(target[2..]) else HasContext(target[1..])
  }

  ghost predicate IsLiteral(source: string, target: string)
    requires source != ""
  {
    forall s :: ReplaceFrom(s, 0, source, target) == ReplaceLiterally(s, 0, source, target)
  }

  /** A rule replaces literally in every name exactly if its target refers to no surroundings, and is what it makes of
      a name that is the source itself. */
  lemma LiteralExactly(source: string, target: string)
    requires source != ""
    ensures IsLiteral(source, target) <==> !HasContext(target) && Substitution(target, source, 0, source) == target
  {
    hide HasContext, Substitution, ReplaceFrom, ReplaceLiterally;
    if IsLiteral(source, target) {
      ReplaceOnce(source, target);
      if HasContext(target) {
        ContextIsNotLiteral(source, target);
      }
    } else if !HasContext(target) && Substitution(target, source, 0, source) == target {
      forall s ensures ReplaceFrom(s, 0, source, target) == ReplaceLiterally(s, 0, source, target) {
        ReplaceAgrees(s, 0, source, target);
      }
    }
  }

  lemma ReplaceOnce(source: string, target: string)
    requires source != ""
    ensures ReplaceFrom(source, 0, source, target) == Substitution(target, source, 0, source)
    ensures ReplaceLiterally(source, 0, source, target) == target
  {
    assert source[0..|source|] == source;
    hide Substitution;
  }

  lemma {:induction false} SamePlaces(target: string, s: string, at: nat, source: string)
    requires at + |source| <= |s| && !HasContext(target)
    ensures Substitution(target, s, at, source) == Substitution(target, source, 0, source)
  {
    if target != "" {
      SamePlaces(if PatternAt(target) then target[2..] else target[1..], s, at, source);
    }
  }

  lemma {:induction false} ReplaceAgrees(s: string, at: nat, source: string, target: string)
    requires source != "" && at <= |s| && !HasContext(target) && Substitution(target, source, 0, source) == target
    ensures ReplaceFrom(s, at, source, target) == ReplaceLiterally(s, at, source, target)
    decreases |s| - at
  {
    hide Substitution, HasContext;
    if at + |source| <= |s| {
      SamePlaces(target, s, at, source);
      if s[at..at + |source|] == source {
        ReplaceAgrees(s, at + |source|, source, target);
      } else {
        ReplaceAgrees(s, at + 1, source, target);
      }
    }
  }

  /** What surrounds the match is copied whole, on one side or the other. */
  lemma {:induction false} ContextIsCopied(target: string, s: string, at: nat, source: string)
    requires at + |source| <= |s| && HasContext(target)
    ensures |Substitution(target, s, at, source)| >= if at <= |s| - at - |source| then at else |s| - at - |source|
  {
    if PatternAt(target) {
      if target[1] !in {'`', '\''} {
        ContextIsCopied(target[2..], s, at, source);
      }
    } else {
      ContextIsCopied(target[1..], s, at, source);
    }
  }

  lemma NoMatch(s: string, at: nat, source: string, target: string)
    requires source != "" && at < |s| && s[at] != source[0]
    ensures |ReplaceFrom(s, at, source, target)| == 1 + |ReplaceFrom(s, at + 1, source, target)|
    ensures |ReplaceLiterally(s, at, source, target)| == 1 + |ReplaceLiterally(s, at + 1, source, target)|
  {
    if at + |source| <= |s| {
      assert s[at..at + |source|][0] == s[at];
    }
    hide Substitution;
  }

  /** Where no match begins nothing is replaced. */
  lemma {:induction false} NothingMatches(s: string, at: nat, to: nat, source: string, target: string)
    requires source != "" && at <= to <= |s| && forall i :: at <= i < to ==> s[i] != source[0]
    ensures |ReplaceFrom(s, at, source, target)| == to - at + |ReplaceFrom(s, to, source, target)|
    ensures |ReplaceLiterally(s, at, source, target)| == to - at + |ReplaceLiterally(s, to, source, target)|
    decreases |s| - at
  {
    hide ReplaceFrom, ReplaceLiterally;
    if at < to {
      NoMatch(s, at, source, target);
      NothingMatches(s, at + 1, to, source, target);
    }
  }

  lemma OneMatch(s: string, at: nat, source: string, target: string)
    requires source != "" && at + |source| <= |s| && s[at..at + |source|] == source
    ensures ReplaceFrom(s, at, source, target)
            == Substitution(target, s, at, source) + ReplaceFrom(s, at + |source|, source, target)
    ensures ReplaceLiterally(s, at, source, target) == target + ReplaceLiterally(s, at + |source|, source, target)
  {
  }

  lemma NothingLeftToMatch(s: string, source: string, target: string)
    requires source != ""
    ensures ReplaceFrom(s, |s|, source, target) == ReplaceLiterally(s, |s|, source, target) == ""
  {
  }

  /** The source between many copies of another character: the context is longer than the target. */
  lemma ContextIsNotLiteral(source: string, target: string)
    requires source != "" && HasContext(target)
    ensures !IsLiteral(source, target)
  {
    hide HasContext, Substitution, ReplaceFrom, ReplaceLiterally;
    var n := |target| + 1;
    var s := Framed(source, n);
    FramedAt(source, n);
    NothingMatches(s, 0, n, source, target);
    OneMatch(s, n, source, target);
    NothingMatches(s, n + |source|, |s|, source, target);
    NothingLeftToMatch(s, source, target);
    ContextIsCopied(target, s, n, source);
    hide Framed;
    assert |ReplaceFrom(s, 0, source, target)| > |ReplaceLiterally(s, 0, source, target)|;
  }

  function Framed(source: string, n: nat): string
    requires source != ""
  {
    var frame := Repeat(if source[0] == 'a' then 'b' else 'a', n);
    frame + source + frame
  }

  lemma FramedAt(source: string, n: nat)
    requires source != ""
    ensures var s := Framed(source, n);
            && |s| == n + |source| + n && s[n..n + |source|] == source
            && forall i :: 0 <= i < n || n + |source| <= i < |s| ==> s[i] != source[0]
  {
    RepeatIs(if source[0] == 'a' then 'b' else 'a', n);
    hide Repeat;
  }

  lemma {:induction false} RepeatIs(c: char, n: nat)
    ensures forall i :: 0 <= i < n ==> Repeat(c, n)[i] == c
  {
    if n > 0 {
      RepeatIs(c, n - 1);
    }
  }

  /** A target serves every source literally exactly if it holds no `$` pattern. */
  lemma LiteralExactlyWithoutPatterns(target: string)
    ensures (forall s, source :: source != "" ==>
               ReplaceFrom(s, 0, source, target) == ReplaceLiterally(s, 0, source, target))
       <==> !HasPattern(target)
  {
    hide Substitution, HasPattern, HasContext, ReplaceFrom, ReplaceLiterally;
    if HasPattern(target) {
      var source := Repeat('x', |target| + 1);
      SubstitutionLength(target, source);
      ReplaceOnce(source, target);
    } else {
      forall s, source | source != ""
        ensures ReplaceFrom(s, 0, source, target) == ReplaceLiterally(s, 0, source, target)
      {
        NoPatternIsCopied(target, source);
        ReplaceAgrees(s, 0, source, target);
      }
    }
  }

  /** But a rule can have a pattern and be literal: `$&` to itself, and `$$&` to `$$$&`. */
  lemma PatternsMayBeLiteral()
    ensures HasPattern("$&") && IsLiteral("$&", "$&") && HasPattern("$$$&") && IsLiteral("$$&", "$$$&")
  {
    var t := "$$$&";
    assert "$&"[2..] == "" && t[2..] == "$&" && !HasContext("");
    assert Substitution("$&", "$&", 0, "$&") == "$&" + "";
    assert Substitution("$&", "$$&", 0, "$$&") == "$$&" + "";
    assert Substitution(t, "$$&", 0, "$$&") == "$" + Substitution("$&", "$$&", 0, "$$&");
    assert PatternAt("$&") && PatternAt(t) && !HasContext("$&") && !HasContext(t);
    LiteralExactly("$&", "$&");
    LiteralExactly("$$&", t);
  }

  /** Such a rule: `foo` to `$&bar` appends instead. */
  lemma PatternIsExpanded()
    ensures ReplaceFrom("foo", 0, "foo", "$&bar") == "foobar"
    ensures ReplaceLiterally("foo", 0, "foo", "$&bar") == "$&bar"
  {
    var s, target := "foo", "$&bar";
    assert s[0..3] == s && s[3..] == "" && target[2..] == "bar" && "bar"[1..] == "ar" && "ar"[1..] == "r";
    assert Substitution("bar", s, 0, s) == "bar";
    assert Substitution(target, s, 0, s) == s + Substitution("bar", s, 0, s);
  }

  function Repeat(c: char, n: nat): (s: string) ensures |s| == n { if n == 0 then "" else [c] + Repeat(c, n - 1) }

  /** In a name that is the source itself, a pattern makes the result longer or shorter than the target. */
  lemma {:induction false} SubstitutionLength(target: string, source: string)
    ensures var n := |Substitution(target, source, 0, source)|; n <= |target| || n >= |source|
    ensures HasPattern(target) ==> |Substitution(target, source, 0, source)| < |target|
                                   || |Substitution(target, source, 0, source)| >= |source|
  {
    if target != "" {
      SubstitutionLength(target[1..], source);
      if PatternAt(target) {
        SubstitutionLength(target[2..], source);
      }
    }
  }

  lemma {:induction false} NoPatternIsCopied(target: string, source: string)
    requires !HasPattern(target)
    ensures !HasContext(target) && Substitution(target, source, 0, source) == target
  {
    if target != "" {
      NoPatternIsCopied(target[1..], source);
    }
  }

  /** The name after the first `n` rules; a rule without a source is passed over. */
  function NameAfter(name: string, rules: seq<Rule>, n: nat): string
    requires n <= |rules|
  {
    if n == 0 then name
    else
      var before, rule := NameAfter(name, rules, n - 1), rules[n - 1];
      if rule.source == "" then before else ReplaceFrom(before, 0, rule.source, rule.target)
  }

  function NewName(name: string, rules: seq<Rule>): string { NameAfter(name, rules, |rules|) }

  /** A name that `path.join` appends as one component. */
  predicate IsComponent(text: string) { '/' !in text && text != "." && text != ".." }

  method ApplyLiteral(name: string, rules: seq<Rule>) returns (newName: string)
    ensures newName == NewName(name, rules)
  {
    newName := name;
    for i := 0 to |rules|
      invariant newName == NameAfter(name, rules, i)
    {
      if rules[i].source == "" {
        continue;
      }
      newName := ReplaceFrom(newName, 0, rules[i].source, rules[i].target);
    }
  }

  /** Rules are applied in turn, each to what those before it have made of the name. */
  lemma {:induction false} RulesInTurn(name: string, first: seq<Rule>, second: seq<Rule>)
    ensures NewName(name, first + second) == NewName(NewName(name, first), second)
    ensures NewName(name, []) == name
    ensures forall rule: Rule :: NewName(name, [rule])
                                 == if rule.source == "" then name else ReplaceFrom(name, 0, rule.source, rule.target)
  {
    PrefixIsEnough(name, first + second, first, |first|);
    RulesAfter(name, first, second, |second|);
    hide ReplaceFrom;
    assert (first + second)[..|first|] == first;
    forall rule: Rule
      ensures NewName(name, [rule])
              == if rule.source == "" then name else ReplaceFrom(name, 0, rule.source, rule.target)
    {
      assert NameAfter(name, [rule], 0) == name;
    }
  }

  lemma {:induction false} PrefixIsEnough(name: string, rules: seq<Rule>, first: seq<Rule>, n: nat)
    requires n <= |first| <= |rules| && first == rules[..|first|]
    ensures NameAfter(name, rules, n) == NameAfter(name, first, n)
  {
    hide ReplaceFrom;
    if n > 0 {
      PrefixIsEnough(name, rules, first, n - 1);
      assert rules[n - 1] == first[n - 1];
    }
  }

  lemma {:induction false} RulesAfter(name: string, first: seq<Rule>, second: seq<Rule>, n: nat)
    requires n <= |second|
    ensures NameAfter(name, first + second, |first| + n) == NameAfter(NewName(name, first), second, n)
  {
    hide ReplaceFrom;
    if n == 0 {
      assert (first + second)[..|first|] == first;
      PrefixIsEnough(name, first + second, first, |first|);
    } else {
      RulesAfter(name, first, second, n - 1);
      assert (first + second)[|first| + n - 1] == second[n - 1];
    }
  }

  // Deepest first: a stable sort by descending length.

  function Insert(sorted: seq<Path>, p: Path): seq<Path> {
    if sorted == [] || Length(sorted[|sorted| - 1]) >= Length(p) then sorted + [p]
    else Insert(sorted[..|sorted| - 1], p) + [sorted[|sorted| - 1]]
  }

  function DeepestFirst(paths: seq<Path>): seq<Path> {
    if paths == [] then [] else Insert(DeepestFirst(paths[..|paths| - 1]), paths[|paths| - 1])
  }

  ghost predicate Descending(paths: seq<Path>) {
    forall i, j :: 0 <= i < j < |paths| ==> paths[i] != paths[j] && Length(paths[i]) >= Length(paths[j])
  }

  lemma {:induction false} InsertSorts(sorted: seq<Path>, p: Path)
    requires Descending(sorted) && p !in sorted
    ensures Descending(Insert(sorted, p))
  {
    hide Length;
    forall i | 0 <= i < |sorted| ensures sorted[i] != p {
      assert sorted[i] in sorted;
    }
    if sorted == [] || Length(sorted[|sorted| - 1]) >= Length(p) {
      AppendDescends(sorted, p);
    } else {
      var front, last := sorted[..|sorted| - 1], sorted[|sorted| - 1];
      InsertSorts(front, p);
      InsertAbove(front, p, last);
      AppendDescends(Insert(front, p), last);
    }
  }

  lemma InsertAbove(front: seq<Path>, p: Path, last: Path)
    requires p != last && Length(p) >= Length(last)
    requires forall i :: 0 <= i < |front| ==> front[i] != last && Length(front[i]) >= Length(last)
    ensures var placed := Insert(front, p);
            forall i :: 0 <= i < |placed| ==> placed[i] != last && Length(placed[i]) >= Length(last)
  {
    hide Length, Insert;
    InsertMembers(front, p);
    var placed := Insert(front, p);
    forall i | 0 <= i < |placed| ensures placed[i] != last && Length(placed[i]) >= Length(last) {
      assert placed[i] in placed;
    }
  }

  lemma {:induction false} InsertKeepsAll(sorted: seq<Path>, p: Path)
    ensures multiset(Insert(sorted, p)) == multiset(sorted) + multiset{p}
  {
    hide Length;
    if sorted != [] && Length(sorted[|sorted| - 1]) < Length(p) {
      assert sorted == sorted[..|sorted| - 1] + [sorted[|sorted| - 1]];
      InsertKeepsAll(sorted[..|sorted| - 1], p);
    }
  }

  lemma AppendDescends(sorted: seq<Path>, p: Path)
    requires Descending(sorted) && forall i :: 0 <= i < |sorted| ==> sorted[i] != p && Length(sorted[i]) >= Length(p)
    ensures Descending(sorted + [p])
  {
    hide Length;
  }

  lemma {:induction false} InsertMembers(sorted: seq<Path>, p: Path)
    ensures forall q :: q in Insert(sorted, p) <==> q in sorted || q == p
  {
    hide Length;
    if sorted != [] && Length(sorted[|sorted| - 1]) < Length(p) {
      InsertMembers(sorted[..|sorted| - 1], p);
      assert sorted == sorted[..|sorted| - 1] + [sorted[|sorted| - 1]];
    }
  }

  lemma {:induction false} DeepestFirstSorts(paths: seq<Path>)
    requires Distinct(paths)
    ensures Descending(DeepestFirst(paths)) && multiset(DeepestFirst(paths)) == multiset(paths)
    ensures forall p :: p in DeepestFirst(paths) <==> p in paths
  {
    if paths != [] {
      var front, last := paths[..|paths| - 1], paths[|paths| - 1];
      assert paths == front + [last];
      DeepestFirstSorts(front);
      InsertSorts(DeepestFirst(front), last);
      InsertKeepsAll(DeepestFirst(front), last);
      InsertMembers(DeepestFirst(front), last);
    }
  }

  lemma {:induction false} InsertIsStable(sorted: seq<Path>, p: Path, x: Path, y: Path)
    requires Precedes(sorted, x, y) || (x in sorted && y == p && Length(x) == Length(p) && Descending(sorted))
    ensures Precedes(Insert(sorted, p), x, y)
  {
    hide Length;
    var placed := Insert(sorted, p);
    if sorted == [] || Length(sorted[|sorted| - 1]) >= Length(p) {
      assert placed == sorted + [p];
      if Precedes(sorted, x, y) {
        var i, j :| 0 <= i < j < |sorted| && sorted[i] == x && sorted[j] == y;
        assert placed[i] == x && placed[j] == y;
      } else {
        var i :| 0 <= i < |sorted| && sorted[i] == x;
        assert placed[i] == x && placed[|sorted|] == y;
      }
    } else {
      var front, last := sorted[..|sorted| - 1], sorted[|sorted| - 1];
      var before := Insert(front, p);
      assert placed == before + [last];
      InsertMembers(front, p);
      if Precedes(sorted, x, y) {
        var i, j :| 0 <= i < j < |sorted| && sorted[i] == x && sorted[j] == y;
        assert front[i] == x;
        if j < |front| {
          assert front[j] == y;
          InsertIsStable(front, p, x, y);
          var a, b :| 0 <= a < b < |before| && before[a] == x && before[b] == y;
          assert placed[a] == x && placed[b] == y;
        } else {
          assert x in front && x in before;
          var a :| 0 <= a < |before| && before[a] == x;
          assert placed[a] == x && placed[|before|] == y;
        }
      } else {
        assert x != last;
        assert x in front;
        InsertIsStable(front, p, x, y);
        var a, b :| 0 <= a < b < |before| && before[a] == x && before[b] == y;
        assert placed[a] == x && placed[b] == y;
      }
    }
  }

  /** Paths of one length keep their order. */
  lemma {:induction false} DeepestFirstIsStable(paths: seq<Path>, x: Path, y: Path)
    requires Distinct(paths) && Precedes(paths, x, y) && Length(x) == Length(y)
    ensures Precedes(DeepestFirst(paths), x, y)
  {
    hide Length, Insert;
    var i, j :| 0 <= i < j < |paths| && paths[i] == x && paths[j] == y;
    var front, last := paths[..|paths| - 1], paths[|paths| - 1];
    DeepestFirstSorts(front);
    assert front[i] == x && x in front;
    if j < |front| {
      assert front[j] == y && Precedes(front, x, y);
      DeepestFirstIsStable(front, x, y);
    }
    InsertIsStable(DeepestFirst(front), last, x, y);
  }

  /** The path as text. */
  function PathText(p: Path): string {
    if p == [] then "" else PathText(Parent(p)) + "/" + BaseName(p).text
  }

  /** Depth is measured by the length of this text. */
  lemma {:induction false} LengthIsOfText(p: Path)
    ensures Length(p) == |PathText(p)|
  {
    if p != [] {
      LengthIsOfText(Parent(p));
    }
  }

  /** The plan for one path: none if its name stays or would vanish. */
  function PlanFor(src: Path, rules: seq<Rule>): seq<Plan> {
    var newName := NewName(BaseName(src).text, rules);
    if newName == BaseName(src).text || newName == "" then []
    else [Plan(src, Parent(src) + [Name(newName)])]
  }

  function PlansFor(paths: seq<Path>, rules: seq<Rule>): seq<Plan> {
    if paths == [] then []
    else PlansFor(paths[..|paths| - 1], rules) + PlanFor(paths[|paths| - 1], rules)
  }

  method BuildPlans(paths: seq<Path>, rules: seq<Rule>) returns (plans: seq<Plan>)
    ensures plans == PlansFor(paths, rules)
    ensures exists at :: ArePlans(paths, rules, at, plans)
  {
    hide ArePlans, NewName;
    ghost var at := PlansExactly(paths, rules);
    plans := [];
    for i := 0 to |paths|
      invariant plans == PlansFor(paths[..i], rules)
    {
      assert paths[..i + 1][..i] == paths[..i];
      var src := paths[i];
      var newName := ApplyLiteral(BaseName(src).text, rules);
      if newName == BaseName(src).text || newName == "" {
        continue;
      }
      plans := plans + [Plan(src, Parent(src) + [Name(newName)])];
    }
    assert paths[..|paths|] == paths;
  }

  /** The name of the path changes, to one that is not empty. */
  ghost predicate Changes(p: Path, rules: seq<Rule>) {
    NewName(BaseName(p).text, rules) !in {"", BaseName(p).text}
  }

  ghost function Changing(paths: seq<Path>, rules: seq<Rule>): set<nat> {
    set i: nat | i < |paths| && Changes(paths[i], rules)
  }

  ghost predicate ArePlans(paths: seq<Path>, rules: seq<Rule>, at: seq<nat>, plans: seq<Plan>) {
    && Positions(at, Changing(paths, rules)) && |plans| == |at|
    && forall k :: 0 <= k < |at| ==>
         && at[k] < |paths|
         && var p := paths[at[k]];
            plans[k] == Plan(p, Parent(p) + [Name(NewName(BaseName(p).text, rules))])
  }

  /** There is one plan for every path whose name changes, to that name in its directory, in the order of the paths. */
  lemma {:induction false} PlansExactly(paths: seq<Path>, rules: seq<Rule>) returns (at: seq<nat>)
    ensures ArePlans(paths, rules, at, PlansFor(paths, rules))
  {
    hide NewName;
    at := [];
    if paths != [] {
      var n := |paths| - 1;
      var front := paths[..n];
      at := PlansExactly(front, rules);
      NextChanging(paths, rules);
      hide Changing;
      if Changes(paths[n], rules) {
        NextPosition(at, Changing(front, rules), n);
        at := at + [n];
      }
    }
  }

  lemma NextChanging(paths: seq<Path>, rules: seq<Rule>)
    requires paths != []
    ensures var n := |paths| - 1;
            && Changing(paths, rules)
               == (if Changes(paths[n], rules) then Changing(paths[..n], rules) + {n} else Changing(paths[..n], rules))
            && forall i :: i in Changing(paths[..n], rules) ==> i < n
  {
    hide Changes;
    var n := |paths| - 1;
    assert forall i :: 0 <= i < n ==> paths[i] == paths[..n][i];
  }

  /** A path is the source of a plan exactly if its name changes. */
  lemma PlannedExactly(paths: seq<Path>, rules: seq<Rule>, p: Path)
    ensures (exists plan :: plan in PlansFor(paths, rules) && plan.src == p) <==> p in paths && Changes(p, rules)
    ensures forall plan :: plan in PlansFor(paths, rules) ==>
              plan.dst == Parent(plan.src) + [Name(NewName(BaseName(plan.src).text, rules))]
  {
    hide NewName, Changes, PlansFor;
    var at := PlansExactly(paths, rules);
    var plans := PlansFor(paths, rules);
    if p in paths && Changes(p, rules) {
      var i :| 0 <= i < |paths| && paths[i] == p;
      assert i in Changing(paths, rules) && i in at;
      var k :| 0 <= k < |at| && at[k] == i;
      assert plans[k].src == p && plans[k] in plans;
    }
    forall plan | plan in plans
      ensures plan.src in paths && Changes(plan.src, rules)
      ensures plan.dst == Parent(plan.src) + [Name(NewName(BaseName(plan.src).text, rules))]
    {
      var k :| 0 <= k < |plans| && plans[k] == plan;
      assert at[k] in at && at[k] in Changing(paths, rules);
    }
  }

  lemma {:induction false} PlanSources(paths: seq<Path>, rules: seq<Rule>)
    ensures forall plan <- PlansFor(paths, rules) ::
              plan.src in paths && plan.dst != [] && Parent(plan.dst) == Parent(plan.src)
  {
    hide NewName;
    if paths != [] {
      var front, last := paths[..|paths| - 1], paths[|paths| - 1];
      assert paths == front + [last];
      PlanSources(front, rules);
      assert Parent(Parent(last) + [Name(NewName(BaseName(last).text, rules))]) == Parent(last);
    }
  }

  ghost predicate SourcesDescend(plans: seq<Plan>) {
    forall i, j :: 0 <= i < j < |plans| ==>
      plans[i].src != plans[j].src && Length(plans[i].src) >= Length(plans[j].src)
  }

  lemma {:induction false} PlansDescend(paths: seq<Path>, rules: seq<Rule>)
    requires Descending(paths)
    ensures SourcesDescend(PlansFor(paths, rules))
  {
    hide Length, NewName;
    if paths != [] {
      var front, last := paths[..|paths| - 1], paths[|paths| - 1];
      PlansDescend(front, rules);
      PlanSources(front, rules);
      var plans := PlansFor(front, rules);
      forall i | 0 <= i < |plans| ensures plans[i].src != last && Length(plans[i].src) >= Length(last) {
        assert plans[i] in plans;
        var k :| 0 <= k < |front| && front[k] == plans[i].src;
        assert paths[k] == front[k] && paths[|front|] == last;
      }
      AppendSource(plans, PlanFor(last, rules), last);
    }
  }

  lemma AppendSource(plans: seq<Plan>, more: seq<Plan>, src: Path)
    requires SourcesDescend(plans) && |more| <= 1 && (|more| == 1 ==> more[0].src == src)
    requires forall i :: 0 <= i < |plans| ==> plans[i].src != src && Length(plans[i].src) >= Length(src)
    ensures SourcesDescend(plans + more)
  {
    hide Length;
  }

  lemma PlansArePlanned(existing: set<Path>, paths: seq<Path>, rules: seq<Rule>)
    requires Descending(paths) && forall p :: p in paths ==> p != [] && p in existing
    ensures Planned(existing, PlansFor(paths, rules))
  {
    hide Length, PlansFor, Descending, Parent;
    PlanSources(paths, rules);
    PlansDescend(paths, rules);
  }

  /** What a real run of the tool does to each path it was given: it has its new name, or that was taken at its turn. */
  lemma RunRenamesExactly(existing: set<Path>, kept: seq<Path>, rules: seq<Rule>, p: Path)
    requires Distinct(kept) && forall q <- kept :: q != [] && q in existing
    ensures var plans := PlansFor(DeepestFirst(kept), rules);
            var renamed := Renamed(existing, plans, |plans|);
            && (p in renamed ==>
                  p in kept && Changes(p, rules) && renamed[p] == Name(NewName(BaseName(p).text, rules)))
            && (p in kept && Changes(p, rules) ==>
                  exists n :: 0 <= n < |plans| && plans[n].src == p
                    && (p in renamed <==> plans[n].dst !in Places(existing, Renamed(existing, plans, n))))
  {
    hide NewName, Changes, PlansFor, Renamed, Places, DeepestFirst, Descending, Planned;
    var paths := DeepestFirst(kept);
    DeepestFirstSorts(kept);
    PlannedExactly(paths, rules, p);
    PlansArePlanned(existing, paths, rules);
    var plans := PlansFor(paths, rules);
    if p in Renamed(existing, plans, |plans|) {
      var i := RenamedSources(existing, plans, |plans|, p);
      assert plans[i] in plans;
    }
    if p in kept && Changes(p, rules) {
      var plan :| plan in plans && plan.src == p;
      var n :| 0 <= n < |plans| && plans[n] == plan;
      CarriedOutExactly(existing, plans, n, |plans|);
    }
  }

  /** Whether a plan is carried out is settled at its turn. */
  lemma {:induction false} CarriedOutExactly(paths: set<Path>, plans: seq<Plan>, n: nat, to: nat)
    requires Planned(paths, plans) && n < to <= |plans|
    ensures plans[n].src in Renamed(paths, plans, to)
       <==> plans[n].dst !in Places(paths, Renamed(paths, plans, n))
  {
    hide *;
    RenamedStep(paths, plans, to - 1, plans[n].src);
    if to == n + 1 {
      NotRenamedYet(paths, plans, n);
    } else {
      CarriedOutExactly(paths, plans, n, to - 1);
      OtherSource(paths, plans, n, to - 1);
    }
  }

  lemma RenamedStep(paths: set<Path>, plans: seq<Plan>, n: nat, p: Path)
    requires n < |plans|
    ensures p in Renamed(paths, plans, n + 1)
       <==> p in Renamed(paths, plans, n)
            || (p == plans[n].src && plans[n].dst !in Places(paths, Renamed(paths, plans, n)))
  {
    var before := Renamed(paths, plans, n);
    assert Renamed(paths, plans, n + 1) == After(paths, before, plans[n]);
    hide Places, Renamed;
  }

  lemma NotRenamedYet(paths: set<Path>, plans: seq<Plan>, n: nat)
    requires Planned(paths, plans) && n < |plans|
    ensures plans[n].src !in Renamed(paths, plans, n)
  {
    TurnComes(paths, plans, n);
    hide Renamed, Planned, Final;
  }

  lemma OtherSource(paths: set<Path>, plans: seq<Plan>, n: nat, m: nat)
    requires Planned(paths, plans) && n < m < |plans|
    ensures plans[n].src != plans[m].src
  {
    hide Length;
  }

  // The code.

  class FileSystem {
    var entries: map<Path, Node>

    ghost predicate Valid() reads this { Rooted(entries.Keys) }

    method ExistsSync(p: Path) returns (exists_: bool)
      ensures exists_ <==> p in entries
    {
      exists_ := p in entries;
    }

    method RenameSync(src: Path, dst: Path)
      requires CanMove(entries.Keys, src, dst)
      modifies this
      ensures entries == Moved(old(entries), src, dst) && Valid()
    {
      MovedStaysRooted(entries, src, dst);
      entries := Moved(entries, src, dst);
    }

    /** Carries the plans out one by one, or with `dryRun` only says which targets are free. */
    method Execute(plans: seq<Plan>, dryRun: bool) returns (succeeded: nat, skipped: nat)
      requires Valid() && Planned(entries.Keys, plans)
      modifies this
      ensures Valid() && succeeded + skipped == |plans|
      ensures dryRun ==> entries == old(entries) && succeeded == FreeTargets(entries.Keys, plans, |plans|)
      ensures !dryRun ==>
                var renamed := Renamed(old(entries).Keys, plans, |plans|);
                && Relocated(old(entries), entries, renamed) && Apart(old(entries).Keys, renamed)
                && |entries| == |old(entries)| && succeeded == |renamed|
    {
      hide Planned, Rooted, Moved, CanMove, Renamed, After, Relocated, Apart, FreeTargets;
      ghost var original := entries;
      NothingDone(original, plans, dryRun);
      succeeded, skipped := 0, 0;
      for i := 0 to |plans|
        invariant Valid() && succeeded + skipped == i
        invariant Reached(original, entries, plans, i, dryRun, succeeded)
      {
        var plan := plans[i];
        var taken := ExistsSync(plan.dst);
        if taken {
          SkipOne(original, entries, plans, i, dryRun, succeeded);
          skipped := skipped + 1;
          continue;
        }
        if !dryRun {
          MoveOne(original, entries, plans, i, succeeded);
          RenameSync(plan.src, plan.dst);
        } else {
          DryOne(original, plans, i, succeeded);
        }
        succeeded := succeeded + 1;
      }
      AllDone(original, entries, plans, dryRun, succeeded);
    }
  }

  /** The tree and the counter after the first `i` plans. */
  ghost predicate Reached(original: map<Path, Node>, entries: map<Path, Node>, plans: seq<Plan>, i: nat,
                          dryRun: bool, succeeded: nat)
  {
    && i <= |plans| && Rooted(original.Keys) && Planned(original.Keys, plans)
    && (dryRun ==> entries == original && succeeded == FreeTargets(original.Keys, plans, i))
    && (!dryRun ==>
          var renamed := Renamed(original.Keys, plans, i);
          Relocated(original, entries, renamed) && succeeded == |renamed|)
  }

  lemma NothingDone(original: map<Path, Node>, plans: seq<Plan>, dryRun: bool)
    requires Rooted(original.Keys) && Planned(original.Keys, plans)
    ensures Reached(original, original, plans, 0, dryRun, 0)
  {
    hide Relocated, Planned, Rooted;
    Unmoved(original);
  }

  lemma SkipOne(original: map<Path, Node>, entries: map<Path, Node>, plans: seq<Plan>, i: nat,
                dryRun: bool, succeeded: nat)
    requires i < |plans| && Reached(original, entries, plans, i, dryRun, succeeded) && plans[i].dst in entries
    ensures Reached(original, entries, plans, i + 1, dryRun, succeeded)
  {
    assert plans[i] in plans;
    hide Planned, Rooted, NodeAt, Places;
  }

  lemma DryOne(original: map<Path, Node>, plans: seq<Plan>, i: nat, succeeded: nat)
    requires i < |plans| && Reached(original, original, plans, i, true, succeeded) && plans[i].dst !in original
    ensures Reached(original, original, plans, i + 1, true, succeeded + 1)
  {
  }

  lemma MoveOne(original: map<Path, Node>, entries: map<Path, Node>, plans: seq<Plan>, i: nat, succeeded: nat)
    requires i < |plans| && Reached(original, entries, plans, i, false, succeeded) && plans[i].dst !in entries
    ensures CanMove(entries.Keys, plans[i].src, plans[i].dst)
    ensures Reached(original, Moved(entries, plans[i].src, plans[i].dst), plans, i + 1, false, succeeded + 1)
  {
    hide CanMove, Moved, Relocated, NotYet, Apart, Rooted, Planned, Final, Places;
    PlanIsLocal(original.Keys, plans, i);
    RunKeepsApart(original.Keys, plans, i);
    TurnComes(original.Keys, plans, i);
    var before := Renamed(original.Keys, plans, i);
    RelocatedKeys(original, entries, before);
    MoveRelocates(original, entries, before, plans[i].src, plans[i].dst);
    FreshRename(before, plans[i].src, BaseName(plans[i].dst));
  }

  lemma PlanIsLocal(paths: set<Path>, plans: seq<Plan>, i: nat)
    requires Planned(paths, plans) && i < |plans|
    ensures plans[i].src in paths && plans[i].src != [] && plans[i].dst != []
    ensures Parent(plans[i].dst) == Parent(plans[i].src)
  {
    assert plans[i] in plans;
  }

  lemma RelocatedKeys(original: map<Path, Node>, entries: map<Path, Node>, renamed: map<Path, Name>)
    requires Relocated(original, entries, renamed)
    ensures entries.Keys == Places(original.Keys, renamed)
  {
  }

  lemma FreshRename(before: map<Path, Name>, src: Path, name: Name)
    requires NotYet(src, before)
    ensures |before[src := name]| == |before| + 1
  {
  }

  lemma AllDone(original: map<Path, Node>, entries: map<Path, Node>, plans: seq<Plan>, dryRun: bool, succeeded: nat)
    requires Reached(original, entries, plans, |plans|, dryRun, succeeded)
    ensures dryRun ==> entries == original && succeeded == FreeTargets(original.Keys, plans, |plans|)
    ensures !dryRun ==>
              && Planned(original.Keys, plans)
              && var renamed := Renamed(original.Keys, plans, |plans|);
              && Relocated(original, entries, renamed) && Apart(original.Keys, renamed)
              && |entries| == |original| && succeeded == |renamed|
  {
    if !dryRun {
      RunKeepsApart(original.Keys, plans, |plans|);
      PlacesCount(original.Keys, Renamed(original.Keys, plans, |plans|));
      assert |entries.Keys| == |entries| && |original.Keys| == |original|;
    }
  }

  lemma Unmoved(entries: map<Path, Node>)
    ensures Relocated(entries, entries, map[])
  {
    forall p ensures Final(p, map[]) == p {
      SourceStaysPut(p, map[]);
    }
  }

  ghost function FreeTargets(paths: set<Path>, plans: seq<Plan>, n: nat): nat
    requires n <= |plans|
  {
    if n == 0 then 0
    else FreeTargets(paths, plans, n - 1) + if plans[n - 1].dst in paths then 0 else 1
  }

  // A dry run looks at the original tree only.

  /** One of the first `n` plans was carried out with this source, or with this target. */
  ghost predicate Freed(paths: set<Path>, plans: seq<Plan>, n: nat, p: Path)
    requires n <= |plans|
  {
    exists m :: 0 <= m < n && plans[m].src in Renamed(paths, plans, n) && plans[m].src == p
  }

  ghost predicate Taken(paths: set<Path>, plans: seq<Plan>, n: nat, p: Path)
    requires n <= |plans|
  {
    exists m :: 0 <= m < n && plans[m].src in Renamed(paths, plans, n) && plans[m].dst == p
  }

  /** When the turn of plan `n` comes, its target is taken exactly if it was taken from the start and has not been
      freed, or an earlier plan took it. */
  lemma TargetIsTakenExactly(paths: set<Path>, plans: seq<Plan>, n: nat)
    requires Rooted(paths) && Planned(paths, plans) && n < |plans|
    ensures plans[n].dst in Places(paths, Renamed(paths, plans, n))
       <==> (plans[n].dst in paths && !Freed(paths, plans, n, plans[n].dst)) || Taken(paths, plans, n, plans[n].dst)
  {
    var renamed, src, dst := Renamed(paths, plans, n), plans[n].src, plans[n].dst;
    TurnComes(paths, plans, n);
    RunKeepsApart(paths, plans, n);
    assert plans[n] in plans;
    hide Final, Apart, NotYet, Rooted, Renamed;
    if dst in Places(paths, renamed) {
      var q :| q in paths && Final(q, renamed) == dst;
      Neighbour(paths, renamed, src, dst, q);
      if q in renamed {
        var m := RenamedSources(paths, plans, n, q);
        assert plans[m] in plans;
        SamePath(plans[m].dst, dst);
      }
    }
    if dst in paths && !Freed(paths, plans, n, dst) {
      if dst in renamed {
        var m := RenamedSources(paths, plans, n, dst);
      }
      NeighbourIsAt(renamed, src, dst, dst);
    }
    if Taken(paths, plans, n, dst) {
      var m :| 0 <= m < n && plans[m].src in renamed && plans[m].dst == dst;
      var i := RenamedSources(paths, plans, n, plans[m].src);
      assert i == m && plans[m] in plans;
      NeighbourIsAt(renamed, src, dst, plans[m].src);
    }
  }

  lemma SamePath(p: Path, q: Path)
    requires p != [] && q != [] && Parent(p) == Parent(q) && BaseName(p) == BaseName(q)
    ensures p == q
  {
    assert p == Parent(p) + [BaseName(p)] && q == Parent(q) + [BaseName(q)];
  }

  /** A node that has come to stand beside `src` was there from the start. */
  lemma Neighbour(paths: set<Path>, renamed: map<Path, Name>, src: Path, dst: Path, q: Path)
    requires Rooted(paths) && Apart(paths, renamed) && src in paths && src != [] && q in paths
    requires Final(src, renamed) == src && dst != [] && Parent(dst) == Parent(src) && Final(q, renamed) == dst
    ensures q != [] && Parent(q) == Parent(src)
    ensures if q in renamed then renamed[q] == BaseName(dst) else q == dst
  {
    FinalStep(q, renamed);
    FinalStep(src, renamed);
    assert Final(Parent(q), renamed) == Parent(dst) == Final(Parent(src), renamed);
    hide Final;
    if q !in renamed {
      SamePath(q, dst);
    }
  }

  lemma NeighbourIsAt(renamed: map<Path, Name>, src: Path, dst: Path, q: Path)
    requires src != [] && Final(src, renamed) == src && dst != [] && q != []
    requires Parent(dst) == Parent(src) == Parent(q)
    requires if q in renamed then renamed[q] == BaseName(dst) else q == dst
    ensures Final(q, renamed) == dst
  {
    FinalStep(q, renamed);
    FinalStep(src, renamed);
    SamePath(Final(q, renamed), dst);
  }

  /** A dry run and a real one answer plan `n` alike exactly if no earlier plan took its target when it was free, or
      freed it for good when it was taken. */
  lemma DryRunAgreesExactly(paths: set<Path>, plans: seq<Plan>, n: nat)
    requires Rooted(paths) && Planned(paths, plans) && n < |plans|
    ensures var dst := plans[n].dst;
            ((dst in paths <==> dst in Places(paths, Renamed(paths, plans, n)))
             <==> if dst in paths then !Freed(paths, plans, n, dst) || Taken(paths, plans, n, dst)
                  else !Taken(paths, plans, n, dst))
  {
    TargetIsTakenExactly(paths, plans, n);
    hide *;
  }

  /** No two plans share a target, and no target is a source. */
  ghost predicate Unrelated(plans: seq<Plan>) {
    forall i, j :: 0 <= i < |plans| && 0 <= j < |plans| ==>
      plans[i].dst != plans[j].src && (i != j ==> plans[i].dst != plans[j].dst)
  }

  lemma NeitherFreedNorTaken(paths: set<Path>, plans: seq<Plan>, n: nat)
    requires Unrelated(plans) && n < |plans|
    ensures !Freed(paths, plans, n, plans[n].dst) && !Taken(paths, plans, n, plans[n].dst)
  {
    hide Renamed;
  }

  lemma OneAnswer(paths: set<Path>, plans: seq<Plan>, n: nat)
    requires Rooted(paths) && Planned(paths, plans) && n < |plans| && Unrelated(plans)
    ensures |Renamed(paths, plans, n + 1)| == |Renamed(paths, plans, n)| + if plans[n].dst in paths then 0 else 1
  {
    var before := Renamed(paths, plans, n);
    assert Renamed(paths, plans, n + 1) == After(paths, before, plans[n]);
    hide Rooted, Planned, Places, NotYet, Freed, Taken, Unrelated, Renamed;
    NeitherFreedNorTaken(paths, plans, n);
    DryRunAgreesExactly(paths, plans, n);
    TurnComes(paths, plans, n);
    FreshRename(before, plans[n].src, BaseName(plans[n].dst));
  }

  /** Then its count is right. */
  lemma {:induction false} DryRunCounts(paths: set<Path>, plans: seq<Plan>, n: nat)
    requires Rooted(paths) && Planned(paths, plans) && n <= |plans| && Unrelated(plans)
    ensures FreeTargets(paths, plans, n) == |Renamed(paths, plans, n)|
  {
    hide Rooted, Planned, Unrelated, After;
    if n > 0 {
      DryRunCounts(paths, plans, n - 1);
      OneAnswer(paths, plans, n - 1);
      hide Renamed;
    }
  }

  /** Two plans for one free target: the dry run counts both, a real one carries out the first. */
  lemma SharedTarget(paths: set<Path>, plans: seq<Plan>)
    requires Rooted(paths) && Planned(paths, plans) && |plans| == 2
    requires plans[0].dst == plans[1].dst && plans[0].dst !in paths && plans[0].dst != plans[0].src
    ensures FreeTargets(paths, plans, 2) == 2 && |Renamed(paths, plans, 2)| == 1
  {
    var dst, after := plans[0].dst, map[plans[0].src := BaseName(plans[0].dst)];
    TargetIsTakenExactly(paths, plans, 0);
    assert Renamed(paths, plans, 0) == map[] && !Taken(paths, plans, 0, dst);
    assert Renamed(paths, plans, 1) == after;
    assert Taken(paths, plans, 1, dst);
    TargetIsTakenExactly(paths, plans, 1);
    assert Renamed(paths, plans, 2) == after;
    CountTwo(paths, plans);
    hide *;
  }

  lemma CountTwo(paths: set<Path>, plans: seq<Plan>)
    requires |plans| == 2 && plans[0].dst !in paths && plans[1].dst !in paths
    ensures FreeTargets(paths, plans, 2) == 2
  {
    assert FreeTargets(paths, plans, 1) == 1;
  }

  /** Otherwise it may not be: of two files that would both be named `c`, only one is renamed. */
  lemma DryRunMayOverstate()
    ensures exists paths, plans ::
              Rooted(paths) && Planned(paths, plans)
              && FreeTargets(paths, plans, |plans|) == 2 && |Renamed(paths, plans, |plans|)| == 1
  {
    var a, b, c: Path := [Name("a")], [Name("b")], [Name("c")];
    var paths := {[], a, b};
    var plans := [Plan(a, c), Plan(b, c)];
    assert a[0] != b[0] && a[0] != c[0] && b[0] != c[0];
    assert c !in paths;
    TwoInRoot(a, b, c);
    hide *;
    SharedTarget(paths, plans);
  }

  lemma TwoInRoot(a: Path, b: Path, c: Path)
    requires |a| == |b| == |c| == 1 && a != b && Length(a) >= Length(b)
    ensures Rooted({[], a, b}) && Planned({[], a, b}, [Plan(a, c), Plan(b, c)])
  {
    hide Length;
    assert Parent(a) == [] && Parent(b) == [] && Parent(c) == [];
  }

  /** The whole tool on the paths its ignore filter kept, in any order.  `Planned`, which the result
      speaks of, is met by every such list. */
  method RenamePaths(fs: FileSystem, kept: seq<Path>, rules: seq<Rule>, dryRun: bool)
    returns (succeeded: nat, skipped: nat)
    requires fs.Valid() && Distinct(kept)
    requires forall p <- kept :: p != [] && p in fs.entries && IsComponent(NewName(BaseName(p).text, rules))
    modifies fs
    ensures fs.Valid()
    ensures var plans := PlansFor(DeepestFirst(kept), rules);
            && Planned(old(fs.entries).Keys, plans) && succeeded + skipped == |plans|
            && (dryRun ==> fs.entries == old(fs.entries))
            && (!dryRun ==>
                  var renamed := Renamed(old(fs.entries).Keys, plans, |plans|);
                  && Relocated(old(fs.entries), fs.entries, renamed) && Apart(old(fs.entries).Keys, renamed)
                  && |fs.entries| == |old(fs.entries)| && succeeded == |renamed|
                  && forall p :: p in renamed ==>
                                   p in kept && Changes(p, rules)
                                   && renamed[p] == Name(NewName(BaseName(p).text, rules)))
    ensures var plans := PlansFor(DeepestFirst(kept), rules);
            forall p :: p in kept && Changes(p, rules) ==>
                          exists n :: 0 <= n < |plans| && plans[n].src == p
                            && (p in Renamed(old(fs.entries).Keys, plans, |plans|)
                                <==> plans[n].dst !in Places(old(fs.entries).Keys,
                                                             Renamed(old(fs.entries).Keys, plans, n)))
  {
    hide Changes, Places;
    hide Planned, Rooted, Relocated, Apart, Renamed, Distinct, Descending, DeepestFirst, PlansFor, NewName;
    hide FreeTargets;
    DeepestFirstSorts(kept);
    var paths := DeepestFirst(kept);
    PlansArePlanned(fs.entries.Keys, paths, rules);
    var plans := BuildPlans(paths, rules);
    forall p {
      RunRenamesExactly(fs.entries.Keys, kept, rules, p);
    }
    succeeded, skipped := fs.Execute(plans, dryRun);
  }
}
