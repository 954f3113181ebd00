/** Backup retention: the grandfather-father-son selection of `prune` and the deletions it performs.

    A moment is an integer; an archive name is its rank in string order.  The generation of a backup
    (its day, its ISO week, its month) is an arbitrary function of the moment it was created. */
module Retention {
  import opened Wrappers

  datatype Backup = Backup(created: int, name: nat)

  /** Keep the newest backup of each of the `count` most recent distinct generations. */
  datatype Rule = Rule(generation: int -> int, count: nat)

  /** The sort key (created, name), newest first. */
  predicate Newer(a: Backup, b: Backup) {
    a.created > b.created || (a.created == b.created && a.name > b.name)
  }

  // ---------- the reference: what a rule keeps ----------

  /** The generations that have a member newer than v. */
  function NewerGenerations(rule: Rule, backups: set<Backup>, v: Backup): set<int> {
    set u | u in backups && Newer(u, v) :: rule.generation(u.created)
  }

  /** v is the newest of its generation, and fewer than `count` generations are more recent. */
  predicate Selected(rule: Rule, backups: set<Backup>, v: Backup) {
    && v in backups
    && rule.generation(v.created) !in NewerGenerations(rule, backups, v)
    && |NewerGenerations(rule, backups, v)| < rule.count
  }

  function Selection(rule: Rule, backups: set<Backup>): set<Backup> {
    set v | v in backups && Selected(rule, backups, v)
  }

  predicate IsNewest(backups: set<Backup>, v: Backup) {
    v in backups && forall u :: u in backups && u != v ==> Newer(v, u)
  }

  function Keep(rules: seq<Rule>, backups: set<Backup>): set<Backup> {
    set v | v in backups && (IsNewest(backups, v) || exists i :: 0 <= i < |rules| && Selected(rules[i], backups, v))
  }

  function NewerThan(backups: set<Backup>, v: Backup): set<Backup> {
    set w | w in backups && Newer(w, v)
  }

  // ---------- path independence ----------

  /** The newest member of one generation among the backups newer than a bound. */
  lemma NewestOfGeneration(rule: Rule, backups: set<Backup>, g: int, u: Backup) returns (m: Backup)
    requires u in backups && rule.generation(u.created) == g
    ensures m in backups && rule.generation(m.created) == g && (m == u || Newer(m, u))
    ensures g !in NewerGenerations(rule, backups, m)
    decreases NewerThan(backups, u)
  {
    if w :| w in backups && Newer(w, u) && rule.generation(w.created) == g {
      assert w in NewerThan(backups, u) && w !in NewerThan(backups, w);
      m := NewestOfGeneration(rule, backups, g, w);
    } else {
      m := u;
    }
  }

  /** A generation with newer members, none of them in `kept`: its newest member is newer than v and unselected. */
  lemma MissedGeneration(rule: Rule, backups: set<Backup>, kept: set<Backup>, v: Backup, g: int) returns (m: Backup)
    requires Selection(rule, backups) <= kept
    requires g in NewerGenerations(rule, backups, v) && g !in NewerGenerations(rule, kept, v)
    ensures m in backups && Newer(m, v)
    ensures |NewerGenerations(rule, backups, m)| >= rule.count
    ensures NewerGenerations(rule, kept, m) <= NewerGenerations(rule, kept, v)
  {
    var u :| u in backups && Newer(u, v) && rule.generation(u.created) == g;
    m := NewestOfGeneration(rule, backups, g, u);
    assert m !in kept;
  }

  lemma Missing<T>(a: set<T>, b: set<T>) returns (g: T)
    requires !(a <= b)
    ensures g in a && g !in b
  {
    g :| g in a && g !in b;
  }

  lemma SubsetSize<T>(a: set<T>, b: set<T>)
    requires a <= b
    ensures |a| <= |b|
  {
    assert b == a + (b - a);
  }

  /** If at least `count` generations are more recent than v, then so are `count` selected ones. */
  lemma {:induction false} SelectionIsDense(rule: Rule, backups: set<Backup>, v: Backup)
    requires |NewerGenerations(rule, backups, v)| >= rule.count
    ensures |NewerGenerations(rule, Selection(rule, backups), v)| >= rule.count
    decreases NewerThan(backups, v)
  {
    var kept := Selection(rule, backups);
    var all, mine := NewerGenerations(rule, backups, v), NewerGenerations(rule, kept, v);
    if all <= mine {
      SubsetSize(all, mine);
    } else {
      var g := Missing(all, mine);
      var m := MissedGeneration(rule, backups, kept, v, g);
      assert m in NewerThan(backups, v) && m !in NewerThan(backups, m);
      SelectionIsDense(rule, backups, m);
      SubsetSize(NewerGenerations(rule, kept, m), mine);
    }
  }

  /** Dropping backups that the rule did not select never changes what it selects later. */
  lemma SelectionForgets(rule: Rule, all: set<Backup>, some: set<Backup>, more: set<Backup>, v: Backup)
    requires Selection(rule, all) <= some <= all
    ensures Selected(rule, some + more, v) <==> Selected(rule, all + more, v)
  {
    var before, after := NewerGenerations(rule, all + more, v), NewerGenerations(rule, some + more, v);
    SubsetSize(after, before);
    if Selected(rule, all + more, v) && v in all {
      SubsetSize(NewerGenerations(rule, all, v), before);
      assert Selected(rule, all, v);
    }
    if Selected(rule, some + more, v) {
      if before <= after {
        assert before == after;
      } else {
        var g := Missing(before, after);
        assert NewerGenerations(rule, some, v) <= after;
        var u :| u in all + more && Newer(u, v) && rule.generation(u.created) == g;
        assert u in all;
        var m := MissedGeneration(rule, all, some, v, g);
        SelectionIsDense(rule, all, m);
        SubsetSize(NewerGenerations(rule, Selection(rule, all), m), after);
        assert false;
      }
    }
  }

  lemma NewestForgets(all: set<Backup>, some: set<Backup>, more: set<Backup>, v: Backup)
    requires some <= all
    requires forall u :: IsNewest(all, u) ==> u in some
    ensures IsNewest(some + more, v) <==> IsNewest(all + more, v)
  {
    if IsNewest(all + more, v) && v in all {
      assert IsNewest(all, v);
    }
    if IsNewest(some + more, v) {
      forall u | u in all && u != v
        ensures Newer(v, u)
      {
        var m := Newest(all);
        assert m in some + more;
      }
    }
  }

  /** Pruning loses nothing that pruning once at the end would keep. */
  lemma KeepIsPathIndependent(rules: seq<Rule>, backups: set<Backup>, more: set<Backup>)
    ensures Keep(rules, Keep(rules, backups) + more) == Keep(rules, backups + more)
  {
    var kept := Keep(rules, backups);
    forall v {
      NewestForgets(backups, kept, more, v);
    }
    forall v, i | 0 <= i < |rules|
      ensures Selected(rules[i], kept + more, v) <==> Selected(rules[i], backups + more, v)
    {
      SelectionForgets(rules[i], backups, kept, more, v);
    }
  }

  lemma KeepIsIdempotent(rules: seq<Rule>, backups: set<Backup>)
    ensures Keep(rules, Keep(rules, backups)) == Keep(rules, backups)
  {
    KeepIsPathIndependent(rules, backups, {});
    assert Keep(rules, backups) + {} == Keep(rules, backups) && backups + {} == backups;
  }

  function Union(batches: seq<set<Backup>>): set<Backup> {
    if batches == [] then {} else Union(batches[..|batches| - 1]) + batches[|batches| - 1]
  }

  /** What is left when each batch of new backups is followed by a prune. */
  function PruneEachTime(rules: seq<Rule>, batches: seq<set<Backup>>): set<Backup> {
    if batches == [] then {}
    else Keep(rules, PruneEachTime(rules, batches[..|batches| - 1]) + batches[|batches| - 1])
  }

  /** Over any run, pruning after every batch leaves what one final prune leaves. */
  lemma {:induction false} IncrementalEqualsOneShot(rules: seq<Rule>, batches: seq<set<Backup>>)
    ensures PruneEachTime(rules, batches) == Keep(rules, Union(batches))
  {
    if batches != [] {
      var earlier, last := batches[..|batches| - 1], batches[|batches| - 1];
      IncrementalEqualsOneShot(rules, earlier);
      KeepIsPathIndependent(rules, Union(earlier), last);
    }
  }

  // ---------- how much is kept ----------

  /** An injective measure below n bounds the size of a set. */
  lemma {:induction false} InjectionBound(s: set<Backup>, measure: Backup -> nat, n: nat)
    requires forall v :: v in s ==> measure(v) < n
    requires forall v, w :: v in s && w in s && measure(v) == measure(w) ==> v == w
    ensures |s| <= n
  {
    if v :| v in s && measure(v) == n - 1 {
      InjectionBound(s - {v}, measure, n - 1);
    } else if n > 0 {
      InjectionBound(s, measure, n - 1);
    }
  }

  lemma MeasureGrows(rule: Rule, backups: set<Backup>, v: Backup, w: Backup)
    requires Selected(rule, backups, v) && Selected(rule, backups, w) && Newer(v, w)
    ensures |NewerGenerations(rule, backups, v)| < |NewerGenerations(rule, backups, w)|
    ensures rule.generation(v.created) != rule.generation(w.created)
  {
    var early, late := NewerGenerations(rule, backups, v), NewerGenerations(rule, backups, w);
    assert early + {rule.generation(v.created)} <= late;
    SubsetSize(early + {rule.generation(v.created)}, late);
  }

  /** A rule keeps at most `count` backups, and no two of one generation. */
  lemma SelectionBound(rule: Rule, backups: set<Backup>)
    ensures |Selection(rule, backups)| <= rule.count
    ensures forall v, w | v in Selection(rule, backups) && w in Selection(rule, backups) ::
              rule.generation(v.created) == rule.generation(w.created) ==> v == w
  {
    var measure := (v: Backup) => |NewerGenerations(rule, backups, v)|;
    forall v, w | v in Selection(rule, backups) && w in Selection(rule, backups) && Newer(v, w)
      ensures measure(v) < measure(w) && rule.generation(v.created) != rule.generation(w.created)
    {
      MeasureGrows(rule, backups, v, w);
    }
    InjectionBound(Selection(rule, backups), measure, rule.count);
  }

  // ---------- the loops of prune ----------

  function Newest(backups: set<Backup>): (m: Backup)
    requires backups != {}
    ensures IsNewest(backups, m)
  {
    NewestExists(backups);
    var m :| IsNewest(backups, m);
    m
  }

  lemma {:induction false} NewestExists(backups: set<Backup>)
    requires backups != {}
    ensures exists m :: IsNewest(backups, m)
  {
    var v :| v in backups;
    if backups == {v} {
      assert IsNewest(backups, v);
    } else {
      NewestExists(backups - {v});
      var m :| IsNewest(backups - {v}, m);
      var top := if Newer(v, m) then v else m;
      forall u | u in backups && u != top
        ensures Newer(top, u)
      {
        assert u == v || u in backups - {v};
      }
      assert IsNewest(backups, top);
    }
  }

  predicate Descending(s: seq<Backup>) { forall i, j :: 0 <= i < j < |s| ==> Newer(s[i], s[j]) }

  function Elements(s: seq<Backup>): set<Backup> { set v | v in s }

  /** verified.sort(..., reverse=True) */
  function NewestFirst(backups: set<Backup>): (s: seq<Backup>)
    ensures Descending(s) && Elements(s) == backups
  {
    if backups == {} then [] else
      var m := Newest(backups);
      var rest := NewestFirst(backups - {m});
      assert forall v :: v in rest ==> v in Elements(rest);
      assert Elements([m] + rest) == {m} + Elements(rest);
      [m] + rest
  }

  function Generations(rule: Rule, s: seq<Backup>): set<int> { set u | u in s :: rule.generation(u.created) }

  function SelectedAmong(rule: Rule, all: set<Backup>, s: seq<Backup>): set<Backup> {
    set v | v in s && Selected(rule, all, v)
  }

  lemma NewerIsEarlier(s: seq<Backup>, i: nat, u: Backup)
    requires Descending(s) && i < |s|
    ensures u in Elements(s) && Newer(u, s[i]) <==> u in s[..i]
  {
    if u in s[..i] {
      var k :| 0 <= k < i && s[k] == u;
      assert u in s;
    }
    if u in Elements(s) && Newer(u, s[i]) {
      var k :| 0 <= k < |s| && s[k] == u;
      assert k < i;
    }
  }

  lemma GenerationsSeen(rule: Rule, s: seq<Backup>, i: nat)
    requires Descending(s) && i < |s|
    ensures NewerGenerations(rule, Elements(s), s[i]) == Generations(rule, s[..i])
  {
    forall u {
      NewerIsEarlier(s, i, u);
    }
    assert forall u :: u in s[..i] <==> u in Elements(s) && Newer(u, s[i]);
  }

  lemma GenerationsOfSnoc(rule: Rule, s: seq<Backup>, last: Backup)
    ensures Generations(rule, s + [last]) == Generations(rule, s) + {rule.generation(last.created)}
  {}

  lemma SelectedOfSnoc(rule: Rule, all: set<Backup>, s: seq<Backup>, last: Backup)
    ensures SelectedAmong(rule, all, s + [last])
         == if Selected(rule, all, last) then SelectedAmong(rule, all, s) + {last} else SelectedAmong(rule, all, s)
  {}

  /** What one iteration adds to the generations seen and to the selection. */
  lemma TakeOneMore(rule: Rule, s: seq<Backup>, i: nat, seen: set<int>, keep: set<Backup>)
    requires Descending(s) && i < |s|
    requires seen == Generations(rule, s[..i]) && keep == SelectedAmong(rule, Elements(s), s[..i])
    ensures var generation := rule.generation(s[i].created);
            && Generations(rule, s[..i + 1]) == seen + {generation}
            && SelectedAmong(rule, Elements(s), s[..i + 1])
               == if generation !in seen && |seen| < rule.count then keep + {s[i]} else keep
  {
    assert s[..i + 1] == s[..i] + [s[i]];
    GenerationsOfSnoc(rule, s[..i], s[i]);
    SelectedOfSnoc(rule, Elements(s), s[..i], s[i]);
    assert Selected(rule, Elements(s), s[i]) <==> rule.generation(s[i].created) !in seen && |seen| < rule.count by {
      GenerationsSeen(rule, s, i);
    }
  }

  /** Once `count` generations are seen, a backup behind them is selected by nothing. */
  lemma RestUnselected(rule: Rule, s: seq<Backup>, i: nat)
    requires Descending(s) && i <= |s|
    requires |Generations(rule, s[..i])| >= rule.count
    ensures SelectedAmong(rule, Elements(s), s[..i]) == Selection(rule, Elements(s))
  {
    forall v | v in s && v !in s[..i]
      ensures !Selected(rule, Elements(s), v)
    {
      assert forall j :: 0 <= j < i ==> s[..i][j] == s[j];
      var k :| 0 <= k < |s| && s[k] == v;
      GenerationsSeen(rule, s, k);
      assert s[..k] == s[..i] + s[i..k];
      SubsetSize(Generations(rule, s[..i]), Generations(rule, s[..k]));
    }
    assert s == s[..i] + s[i..];
  }

  /** One rule's loop over the sorted list. */
  method SelectGenerations(rule: Rule, verified: seq<Backup>) returns (keep: set<Backup>)
    requires Descending(verified)
    ensures keep == Selection(rule, Elements(verified))
  {
    ghost var all := Elements(verified);
    var seen: set<int> := {};
    keep := {};
    var i := 0;
    while i < |verified|
      invariant 0 <= i <= |verified|
      invariant seen == Generations(rule, verified[..i])
      invariant keep == SelectedAmong(rule, all, verified[..i])
      invariant |seen| <= rule.count
    {
      var archive := verified[i];
      TakeOneMore(rule, verified, i, seen, keep);
      var generation := rule.generation(archive.created);
      if generation !in seen {
        if |seen| >= rule.count {
          RestUnselected(rule, verified, i);
          return;
        }
        seen := seen + {generation};
        keep := keep + {archive};
      } else {
        assert seen + {generation} == seen;
      }
      i := i + 1;
    }
    assert verified[..i] == verified;
    assert SelectedAmong(rule, all, verified) == Selection(rule, all);
  }

  /** The newest backup, then every rule's selection. */
  method Retained(rules: seq<Rule>, verified: seq<Backup>) returns (keep: set<Backup>)
    requires Descending(verified) && verified != []
    ensures keep == Keep(rules, Elements(verified))
  {
    ghost var all := Elements(verified);
    NewestLeads(verified);
    keep := {verified[0]};
    for r := 0 to |rules|
      invariant keep == Keep(rules[..r], all)
    {
      var selected := SelectGenerations(rules[r], verified);
      keep := keep + selected;
      assert rules[..r + 1] == rules[..r] + [rules[r]];
      assert forall i :: 0 <= i < r ==> rules[..r + 1][i] == rules[..r][i];
    }
    assert rules[..|rules|] == rules;
  }

  // ---------- prune on a directory ----------

  /** An archive file: its digest, and the creation moment its manifest states if it verifies. */
  datatype Archive = Archive(digest: int, created: VerifiedMoment)
  datatype VerifiedMoment = Verified(moment: int) | Invalid

  datatype Report = Report(kept: set<nat>, deleted: set<nat>, wouldDelete: set<nat>, invalid: set<nat>)
  datatype PruneResult = Pruned(report: Report) | NothingVerified | ChangedAfterVerification(name: nat)

  function VerifiedBackups(archives: map<nat, Archive>): set<Backup> {
    set name | name in archives && archives[name].created.Verified? :: Backup(archives[name].created.moment, name)
  }

  function Names(backups: set<Backup>): set<nat> { set v | v in backups :: v.name }

  function Digests(archives: map<nat, Archive>): map<nat, int> {
    map name | name in archives :: archives[name].digest
  }

  /** What a prune leaves when nobody else writes meanwhile; the verification of the `failing` files fails this
      time, whatever is in them. */
  function AfterPrune(rules: seq<Rule>, archives: map<nat, Archive>, failing: set<nat>): map<nat, Archive> {
    var all := VerifiedBackups(archives - failing);
    archives - Names(all - Keep(rules, all))
  }

  /** `after` lacks only files of `doomed` that still had the digest they were verified with. */
  predicate DeletedUnchanged(before: map<nat, Archive>, after: map<nat, Archive>, doomed: set<nat>, digests: map<nat, int>)
    requires doomed <= before.Keys && doomed <= digests.Keys
  {
    && after.Keys <= before.Keys && before.Keys - after.Keys <= doomed
    && (forall name :: name in after ==> after[name] == before[name])
    && forall name :: name in before.Keys - after.Keys ==> before[name].digest == digests[name]
  }

  class BackupDirectory {
    var archives: map<nat, Archive>

    constructor (archives: map<nat, Archive>)
      ensures this.archives == archives
    {
      this.archives := archives;
    }

    /** The deletion loop: every file is hashed again before it is unlinked, and a changed one ends the loop. */
    method Delete(doomed: set<nat>, digests: map<nat, int>) returns (changed: Option<nat>)
      requires doomed <= archives.Keys && doomed <= digests.Keys
      modifies this
      ensures changed.None? ==>
                && archives == old(archives) - doomed
                && forall name :: name in doomed ==> old(archives)[name].digest == digests[name]
      ensures changed.Some? ==>
                && changed.value in doomed && old(archives)[changed.value].digest != digests[changed.value]
                && DeletedUnchanged(old(archives), archives, doomed - {changed.value}, digests)
    {
      var remaining := doomed;
      ghost var gone := {};
      while remaining != {}
        invariant remaining + gone == doomed && remaining !! gone
        invariant archives == old(archives) - gone
        invariant forall name :: name in gone ==> old(archives)[name].digest == digests[name]
        decreases remaining
      {
        var name :| name in remaining;
        if archives[name].digest != digests[name] {
          assert archives == old(archives) - gone && gone <= doomed - {name};
          return Some(name);
        }
        archives := archives - {name};
        remaining, gone := remaining - {name}, gone + {name};
      }
      return None;
    }

    /** `failing` are the files whose verification fails this time, `overwritten` is what another process rewrites between verification and the first deletion. */
    method Prune(rules: seq<Rule>, apply: bool, failing: set<nat>, overwritten: map<nat, Archive>) returns (result: PruneResult)
      requires overwritten.Keys <= archives.Keys
      modifies this
      ensures result == NothingVerified <==> VerifiedBackups(old(archives) - failing) == {}
      ensures apply && overwritten == map[] ==> archives == AfterPrune(rules, old(archives), failing)
      ensures var all := VerifiedBackups(old(archives) - failing);
              var doomed := Names(all - Keep(rules, all));
              var now := old(archives) + overwritten;
              match result
              case NothingVerified => archives == old(archives)
              case Pruned(report) =>
                && report.kept == Names(Keep(rules, all))
                && report.invalid == old(archives).Keys - Names(all)
                && report.deleted == (if apply then doomed else {})
                && report.wouldDelete == (if apply then {} else doomed)
                && archives == now - report.deleted
                && (apply ==> forall name :: name in doomed ==> now[name].digest == old(archives)[name].digest)
              case ChangedAfterVerification(name) =>
                && apply && name in doomed && now[name].digest != old(archives)[name].digest
                && DeletedUnchanged(now, archives, doomed - {name}, Digests(old(archives)))
      ensures forall name :: name in old(archives) && name !in archives ==>
                && old(archives)[name].created.Verified? && name !in failing
                && exists kept :: kept in archives && kept in old(archives) && kept !in failing && old(archives)[kept].created.Verified?
                     && (old(archives)[kept].created.moment > old(archives)[name].created.moment
                         || (old(archives)[kept].created.moment == old(archives)[name].created.moment && kept > name))
    {
      hide Keep;
      var all := VerifiedBackups(archives - failing);
      var invalid := archives.Keys - Names(all);
      var verified := NewestFirst(all);
      if verified == [] {
        assert all == {};
        return NothingVerified;
      }
      var keep := Retained(rules, verified);
      KeepSome(rules, all);
      var deletions := all - keep;
      var digests := Digests(archives);
      archives := archives + overwritten;
      ghost var now := archives;
      NamesSplit(old(archives) - failing, keep);
      assert archives.Keys == old(archives).Keys == digests.Keys;
      if apply {
        var changed := Delete(Names(deletions), digests);
        assert now.Keys - archives.Keys <= Names(deletions);
        LaterIsLeft(rules, old(archives), failing, archives.Keys);
        match changed {
          case Some(name) => return ChangedAfterVerification(name);
          case None => return Pruned(Report(Names(keep), Names(deletions), {}, invalid));
        }
      }
      return Pruned(Report(Names(keep), {}, Names(deletions), invalid));
    }
  }

  lemma NewestLeads(s: seq<Backup>)
    requires s != [] && Descending(s)
    ensures forall v :: IsNewest(Elements(s), v) <==> v == s[0]
  {
    assert s[0] in Elements(s);
    forall u | u in Elements(s) && u != s[0]
      ensures Newer(s[0], u)
    {
      var k :| 0 <= k < |s| && s[k] == u;
    }
    assert IsNewest(Elements(s), s[0]);
  }

  /** Every deleted name is a file of the directory, and none of them is kept. */
  lemma NamesSplit(archives: map<nat, Archive>, keep: set<Backup>)
    requires keep <= VerifiedBackups(archives)
    ensures Names(VerifiedBackups(archives) - keep) <= archives.Keys
    ensures Names(VerifiedBackups(archives) - keep) !! Names(keep)
  {}

  /** Whatever prune is asked to do, kept and unverifiable archives are not among the doomed. */
  lemma DoomedAreSpare(rules: seq<Rule>, archives: map<nat, Archive>, name: nat)
    requires name in Names(VerifiedBackups(archives) - Keep(rules, VerifiedBackups(archives)))
    ensures name in archives && archives[name].created.Verified?
    ensures exists better :: better in Keep(rules, VerifiedBackups(archives))
                          && Newer(better, Backup(archives[name].created.moment, name))
  {
    var all := VerifiedBackups(archives);
    var v := Backup(archives[name].created.moment, name);
    var m := Newest(all);
    assert m in Keep(rules, all) && v in all && v !in Keep(rules, all);
    assert Newer(m, v);
  }

  // ---------- a run of arrivals and prunes ----------

  /** New files, and the files that the prune after them cannot verify, for whatever reason. */
  datatype Round = Round(arrivals: map<nat, Archive>, failing: set<nat>)

  /** Each batch of new files is followed by a prune. */
  function PrunedEachTime(rules: seq<Rule>, rounds: seq<Round>): map<nat, Archive> {
    if rounds == [] then map[]
    else
      var last := rounds[|rounds| - 1];
      AfterPrune(rules, PrunedEachTime(rules, rounds[..|rounds| - 1]) + last.arrivals, last.failing)
  }

  function Arrived(rounds: seq<Round>): map<nat, Archive> {
    if rounds == [] then map[] else Arrived(rounds[..|rounds| - 1]) + rounds[|rounds| - 1].arrivals
  }

  /** No name comes twice. */
  ghost predicate FreshNames(rounds: seq<Round>) {
    forall i, name :: 0 <= i < |rounds| && name in rounds[i].arrivals ==> name !in Arrived(rounds[..i])
  }

  /** A prune keeps what it cannot verify and what the rules keep. */
  lemma KeptFiles(rules: seq<Rule>, archives: map<nat, Archive>, failing: set<nat>, name: nat)
    ensures name in AfterPrune(rules, archives, failing) <==>
              name in archives
              && (archives[name].created.Verified? && name !in failing ==>
                    Backup(archives[name].created.moment, name) in Keep(rules, VerifiedBackups(archives - failing)))
  {
    hide Keep;
    var seen := archives - failing;
    if name in seen && archives[name].created.Verified? {
      var v := Backup(archives[name].created.moment, name);
      assert v in VerifiedBackups(seen);
      if v in VerifiedBackups(seen) - Keep(rules, VerifiedBackups(seen)) {
        assert v.name in Names(VerifiedBackups(seen) - Keep(rules, VerifiedBackups(seen)));
      }
    }
  }

  lemma KeepSome(rules: seq<Rule>, backups: set<Backup>)
    ensures Keep(rules, backups) <= backups
  {}

  lemma VerifiedMember(archives: map<nat, Archive>, v: Backup)
    ensures v in VerifiedBackups(archives) <==> v.name in archives && archives[v.name].created == Verified(v.created)
  {}

  /** The files that could not be verified this time. */
  function Missed(archives: map<nat, Archive>, failing: set<nat>): map<nat, Archive> {
    map name | name in archives && name in failing :: archives[name]
  }

  lemma SeenAndMissed(archives: map<nat, Archive>, failing: set<nat>)
    ensures VerifiedBackups(archives) == VerifiedBackups(archives - failing) + VerifiedBackups(Missed(archives, failing))
  {
    assert (archives - failing) + Missed(archives, failing) == archives;
    VerifiedOfUnion(archives - failing, Missed(archives, failing));
  }

  /** What could be verified now, had all gone well. */
  lemma VerifiedAfterPrune(rules: seq<Rule>, archives: map<nat, Archive>, failing: set<nat>)
    ensures VerifiedBackups(AfterPrune(rules, archives, failing))
         == Keep(rules, VerifiedBackups(archives - failing)) + VerifiedBackups(Missed(archives, failing))
  {
    var missed := Missed(archives, failing);
    KeepSome(rules, VerifiedBackups(archives - failing));
    forall v ensures v in VerifiedBackups(AfterPrune(rules, archives, failing))
                <==> v in Keep(rules, VerifiedBackups(archives - failing)) + VerifiedBackups(missed) {
      KeptFiles(rules, archives, failing, v.name);
      VerifiedMember(AfterPrune(rules, archives, failing), v);
      VerifiedMember(archives - failing, v);
      VerifiedMember(missed, v);
      hide Keep, VerifiedBackups;
    }
  }

  lemma VerifiedOfUnion(a: map<nat, Archive>, b: map<nat, Archive>)
    requires a.Keys !! b.Keys
    ensures VerifiedBackups(a + b) == VerifiedBackups(a) + VerifiedBackups(b)
  {}

  /** A prune forgets nothing that a later, undisturbed prune needs. */
  lemma KeepAfterPrune(rules: seq<Rule>, archives: map<nat, Archive>, failing: set<nat>, more: map<nat, Archive>)
    requires archives.Keys !! more.Keys
    ensures Keep(rules, VerifiedBackups(AfterPrune(rules, archives, failing) + more))
         == Keep(rules, VerifiedBackups(archives + more))
  {
    var seen, missed := VerifiedBackups(archives - failing), VerifiedBackups(Missed(archives, failing));
    var later := VerifiedBackups(more);
    VerifiedAfterPrune(rules, archives, failing);
    VerifiedOfUnion(AfterPrune(rules, archives, failing), more);
    VerifiedOfUnion(archives, more);
    SeenAndMissed(archives, failing);
    hide Keep, VerifiedBackups, AfterPrune, Missed;
    KeepIsPathIndependent(rules, seen, missed + later);
    assert (Keep(rules, seen) + missed) + later == Keep(rules, seen) + (missed + later);
    assert (seen + missed) + later == seen + (missed + later);
  }

  lemma PruneThenPrune(rules: seq<Rule>, archives: map<nat, Archive>, failing: set<nat>, more: map<nat, Archive>)
    requires archives.Keys !! more.Keys
    ensures AfterPrune(rules, AfterPrune(rules, archives, failing) + more, {}) == AfterPrune(rules, archives + more, {})
  {
    var some, all := AfterPrune(rules, archives, failing) + more, archives + more;
    KeepAfterPrune(rules, archives, failing, more);
    KeepSome(rules, VerifiedBackups(some));
    assert some - {} == some && all - {} == all;
    forall name ensures name in AfterPrune(rules, some, {}) <==> name in AfterPrune(rules, all, {}) {
      SameFileKept(rules, archives, failing, more, name);
    }
  }

  lemma SameFileKept(rules: seq<Rule>, archives: map<nat, Archive>, failing: set<nat>, more: map<nat, Archive>, name: nat)
    requires archives.Keys !! more.Keys
    requires var some, all := AfterPrune(rules, archives, failing) + more, archives + more;
             && some - {} == some && all - {} == all
             && Keep(rules, VerifiedBackups(some)) == Keep(rules, VerifiedBackups(all))
             && Keep(rules, VerifiedBackups(some)) <= VerifiedBackups(some)
    ensures name in AfterPrune(rules, AfterPrune(rules, archives, failing) + more, {})
       <==> name in AfterPrune(rules, archives + more, {})
  {
    var some, all := AfterPrune(rules, archives, failing) + more, archives + more;
    KeptFiles(rules, archives, failing, name);
    KeptFiles(rules, some, {}, name);
    KeptFiles(rules, all, {}, name);
    if name in all {
      assert name in archives ==> all[name] == archives[name];
      if all[name].created.Verified? {
        VerifiedMember(some, Backup(all[name].created.moment, name));
      }
    }
    hide Keep, VerifiedBackups, AfterPrune;
  }

  /** Prunes after every batch of new files, each unable to verify some of the files, and an undisturbed one in
      the end: the directory holds exactly the files that the last prune alone would have left. */
  lemma {:induction false} DirectoryRun(rules: seq<Rule>, rounds: seq<Round>, more: map<nat, Archive>)
    requires FreshNames(rounds) && Arrived(rounds).Keys !! more.Keys
    ensures AfterPrune(rules, PrunedEachTime(rules, rounds) + more, {}) == AfterPrune(rules, Arrived(rounds) + more, {})
  {
    if rounds != [] {
      var n := |rounds| - 1;
      var before, last := rounds[..n], rounds[n];
      var kept := PrunedEachTime(rules, before);
      FreshInit(rounds, more);
      PrunedIsSome(rules, before);
      Regroup(kept, last.arrivals, more);
      Regroup(Arrived(before), last.arrivals, more);
      hide AfterPrune, FreshNames;
      PruneThenPrune(rules, kept + last.arrivals, last.failing, more);
      DirectoryRun(rules, before, last.arrivals + more);
    }
  }

  lemma Regroup<K, V>(a: map<K, V>, b: map<K, V>, c: map<K, V>)
    ensures (a + b) + c == a + (b + c)
  {}

  lemma FreshInit(rounds: seq<Round>, more: map<nat, Archive>)
    requires FreshNames(rounds) && rounds != [] && Arrived(rounds).Keys !! more.Keys
    ensures var n := |rounds| - 1;
            && FreshNames(rounds[..n]) && Arrived(rounds[..n]).Keys !! (rounds[n].arrivals + more).Keys
            && rounds[n].arrivals.Keys !! more.Keys
  {
    var n := |rounds| - 1;
    assert forall i :: 0 <= i < n ==> rounds[..n][..i] == rounds[..i];
  }

  lemma {:induction false} PrunedIsSome(rules: seq<Rule>, rounds: seq<Round>)
    ensures PrunedEachTime(rules, rounds).Keys <= Arrived(rounds).Keys
  {
    hide Keep;
    if rounds != [] { PrunedIsSome(rules, rounds[..|rounds| - 1]); }
  }

  // ---------- in terms of creation moments and names ----------

  lemma NewestPlainly(backups: set<Backup>, v: Backup)
    requires v in backups
    ensures IsNewest(backups, v) <==>
              forall u :: u in backups ==> u.created < v.created || (u.created == v.created && u.name <= v.name)
  {}

  /** A rule selects a backup exactly when it is the last of its generation, and later backups belong to fewer
      than `count` generations. */
  lemma SelectedPlainly(rule: Rule, backups: set<Backup>, v: Backup)
    requires v in backups
    ensures Selected(rule, backups, v) <==>
              && (forall u :: u in backups && rule.generation(u.created) == rule.generation(v.created) ==>
                    u.created < v.created || (u.created == v.created && u.name <= v.name))
              && |set u | u in backups && (u.created > v.created || (u.created == v.created && u.name > v.name)) :: rule.generation(u.created)|
                 < rule.count
  {
    assert NewerGenerations(rule, backups, v)
        == set u | u in backups && (u.created > v.created || (u.created == v.created && u.name > v.name)) :: rule.generation(u.created);
    if u :| u in backups && rule.generation(u.created) == rule.generation(v.created)
            && !(u.created < v.created || (u.created == v.created && u.name <= v.name)) {
      assert rule.generation(u.created) in NewerGenerations(rule, backups, v);
    }
  }

  /** The backup with the last creation moment, and the greatest name among several, is always kept. */
  lemma LatestIsKept(rules: seq<Rule>, backups: set<Backup>, v: Backup)
    requires v in backups
    requires forall u :: u in backups ==> u.created < v.created || (u.created == v.created && u.name <= v.name)
    ensures v in Keep(rules, backups)
  {
    NewestPlainly(backups, v);
  }

  /** Of two backups of one generation a rule never selects the earlier. */
  lemma EarlierOfGenerationNotSelected(rule: Rule, backups: set<Backup>, v: Backup, u: Backup)
    requires v in backups && u in backups && rule.generation(u.created) == rule.generation(v.created)
    requires u.created > v.created || (u.created == v.created && u.name > v.name)
    ensures v !in Selection(rule, backups)
  {
    SelectedPlainly(rule, backups, v);
    hide Selected;
  }

  /** For every file that is doomed, a later one is kept. */
  lemma DoomedHaveLater(rules: seq<Rule>, archives: map<nat, Archive>, name: nat)
    requires name in Names(VerifiedBackups(archives) - Keep(rules, VerifiedBackups(archives)))
    ensures name in archives && archives[name].created.Verified?
    ensures exists kept :: kept in Names(Keep(rules, VerifiedBackups(archives)))
                           && kept in archives && archives[kept].created.Verified?
                           && (archives[kept].created.moment > archives[name].created.moment
                               || (archives[kept].created.moment == archives[name].created.moment && kept > name))
  {
    var all := VerifiedBackups(archives);
    var v := Backup(archives[name].created.moment, name);
    var m := Newest(all);
    assert m in Keep(rules, all) && v in all && v !in Keep(rules, all);
    NewestPlainly(all, m);
    assert m.name in Names(Keep(rules, all));
  }

  /** Whoever deletes no more than a prune dooms leaves a later file for each that is gone. */
  lemma LaterIsLeft(rules: seq<Rule>, archives: map<nat, Archive>, failing: set<nat>, left: set<nat>)
    requires archives.Keys - left <= Names(VerifiedBackups(archives - failing) - Keep(rules, VerifiedBackups(archives - failing)))
    ensures forall name :: name in archives && name !in left ==>
              && archives[name].created.Verified? && name !in failing
              && exists kept :: kept in left && kept in archives && kept !in failing && archives[kept].created.Verified?
                   && (archives[kept].created.moment > archives[name].created.moment
                       || (archives[kept].created.moment == archives[name].created.moment && kept > name))
  {
    hide Keep;
    forall name | name in archives && name !in left
      ensures archives[name].created.Verified? && name !in failing
      ensures exists kept :: kept in left && kept in archives && kept !in failing && archives[kept].created.Verified?
                && (archives[kept].created.moment > archives[name].created.moment
                    || (archives[kept].created.moment == archives[name].created.moment && kept > name))
    {
      assert name in archives.Keys - left;
      NameOfDoomed(rules, archives, failing, name);
      DeletedHaveLater(rules, archives, failing, name);
    }
  }

  lemma NameOfDoomed(rules: seq<Rule>, archives: map<nat, Archive>, failing: set<nat>, name: nat)
    requires name in Names(VerifiedBackups(archives - failing) - Keep(rules, VerifiedBackups(archives - failing)))
    ensures name in archives && name !in AfterPrune(rules, archives, failing)
  {
    hide Keep;
  }

  /** A file that a prune deletes was verified, and a later verified one is left. */
  lemma DeletedHaveLater(rules: seq<Rule>, archives: map<nat, Archive>, failing: set<nat>, name: nat)
    requires name in archives && name !in AfterPrune(rules, archives, failing)
    ensures archives[name].created.Verified? && name !in failing
    ensures exists kept :: kept in AfterPrune(rules, archives, failing) && kept in archives && kept !in failing
                           && archives[kept].created.Verified?
                           && (archives[kept].created.moment > archives[name].created.moment
                               || (archives[kept].created.moment == archives[name].created.moment && kept > name))
  {
    hide Keep;
    var seen := archives - failing;
    var all := VerifiedBackups(seen);
    assert name in Names(all - Keep(rules, all));
    DoomedHaveLater(rules, seen, name);
    var kept :| kept in Names(Keep(rules, all)) && kept in seen && seen[kept].created.Verified?
                && (seen[kept].created.moment > seen[name].created.moment
                    || (seen[kept].created.moment == seen[name].created.moment && kept > name));
    KeepSome(rules, all);
    NamesSplit(seen, Keep(rules, all));
  }

  /** The latest file that verifies survives every prune. */
  lemma LatestSurvives(rules: seq<Rule>, archives: map<nat, Archive>, failing: set<nat>, name: nat)
    requires name in archives && name !in failing && archives[name].created.Verified?
    requires forall other :: other in archives && other !in failing && archives[other].created.Verified? ==>
               archives[other].created.moment < archives[name].created.moment
               || (archives[other].created.moment == archives[name].created.moment && other <= name)
    ensures name in AfterPrune(rules, archives, failing)
  {
    hide Keep;
    var all := VerifiedBackups(archives - failing);
    var v := Backup(archives[name].created.moment, name);
    VerifiedMember(archives - failing, v);
    LatestIsKept(rules, all, v);
    KeptFiles(rules, archives, failing, name);
  }

  // ---------- the policy: 7 daily, 5 weekly, 12 monthly ----------

  function Policy(day: int -> int, week: int -> int, month: int -> int): seq<Rule> {
    [Rule(day, 7), Rule(week, 5), Rule(month, 12)]
  }

  /** At most 24 backups survive, and the newest always does. */
  lemma PolicyBound(day: int -> int, week: int -> int, month: int -> int, backups: set<Backup>)
    requires backups != {}
    ensures |Keep(Policy(day, week, month), backups)| <= 24
    ensures Newest(backups) in Keep(Policy(day, week, month), backups)
  {
    var rules := Policy(day, week, month);
    var d, w, m := Selection(rules[0], backups), Selection(rules[1], backups), Selection(rules[2], backups);
    SelectionBound(rules[0], backups);
    SelectionBound(rules[1], backups);
    SelectionBound(rules[2], backups);
    var newest := Newest(backups);
    assert NewerGenerations(rules[0], backups, newest) == {};
    forall v | v in Keep(rules, backups)
      ensures v in d + w + m
    {
      if !IsNewest(backups, v) {
        var i :| 0 <= i < |rules| && Selected(rules[i], backups, v);
        assert i == 0 || i == 1 || i == 2;
      } else {
        assert v == newest;
      }
    }
    SubsetSize(Keep(rules, backups), d + w + m);
    assert |d + w + m| <= |d| + |w| + |m|;
  }

  /** What each rule of the policy retains: the newest backup of each of the 7 latest days, of the 5 latest weeks
      and of the 12 latest months that have one; and the newest of all. */
  lemma PolicyKeeps(day: int -> int, week: int -> int, month: int -> int, backups: set<Backup>, v: Backup)
    requires v in backups
    ensures v in Keep(Policy(day, week, month), backups) <==>
              || (forall u :: u in backups ==> u.created < v.created || (u.created == v.created && u.name <= v.name))
              || ((forall u :: u in backups && day(u.created) == day(v.created) ==>
                     u.created < v.created || (u.created == v.created && u.name <= v.name))
                  && |set u | u in backups && (u.created > v.created || (u.created == v.created && u.name > v.name)) :: day(u.created)| < 7)
              || ((forall u :: u in backups && week(u.created) == week(v.created) ==>
                     u.created < v.created || (u.created == v.created && u.name <= v.name))
                  && |set u | u in backups && (u.created > v.created || (u.created == v.created && u.name > v.name)) :: week(u.created)| < 5)
              || ((forall u :: u in backups && month(u.created) == month(v.created) ==>
                     u.created < v.created || (u.created == v.created && u.name <= v.name))
                  && |set u | u in backups && (u.created > v.created || (u.created == v.created && u.name > v.name)) :: month(u.created)| < 12)
  {
    hide Selected, IsNewest, Keep, Newer;
    KeptByPolicy(day, week, month, backups, v);
    SelectedPlainly(Rule(day, 7), backups, v);
    SelectedPlainly(Rule(week, 5), backups, v);
    SelectedPlainly(Rule(month, 12), backups, v);
    NewestPlainly(backups, v);
  }

  lemma KeptByPolicy(day: int -> int, week: int -> int, month: int -> int, backups: set<Backup>, v: Backup)
    requires v in backups
    ensures v in Keep(Policy(day, week, month), backups) <==>
              || IsNewest(backups, v) || Selected(Rule(day, 7), backups, v)
              || Selected(Rule(week, 5), backups, v) || Selected(Rule(month, 12), backups, v)
  {
    hide Selected, IsNewest;
    var rules := Policy(day, week, month);
    assert rules[0] == Rule(day, 7) && rules[1] == Rule(week, 5) && rules[2] == Rule(month, 12);
  }
}
