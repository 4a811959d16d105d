/**
 * `parse_vcs` of `src/api/vcs.py`: the revisions of a repository become a
 * commit-hash table, author and committer tables keyed by e-mail, a release
 * table and a commit log whose literal values are replaced by references to
 * the rows of those tables.
 */
module Vcs {
  import opened Wrappers
  import opened Frames
  import opened RefJson

  /** One parsed commit, as `Git.parse_revisions` records it. Times are seconds since the epoch, in UTC. */
  datatype Revision = Revision(
    author: string,
    authorEmail: string,
    authoredAt: int,
    coAuthors: seq<string>,
    coAuthorEmails: seq<string>,
    commitHash: string,
    committedAt: int,
    committer: string,
    committerEmail: string,
    encoding: string,
    gpgsign: Option<string>,
    message: string,
    parents: seq<string>)

  /** A row of the `authors` or `committers` table. */
  datatype Person = Person(name: string, email: string)

  /**
   * A normalised commit-log row. The three ids are row labels of the static
   * tables (missing when the value has no row there); the two lists are the
   * JSON text of their references.
   */
  datatype CommitLog = CommitLog(
    authorId: Option<nat>,
    authoredAt: int,
    coAuthorIds: string,
    commitHashId: Option<nat>,
    committedAt: int,
    committerId: Option<nat>,
    encoding: string,
    gpgsign: Option<string>,
    message: string,
    parentHashIds: string)

  /** The five frames `parse_vcs` returns, keyed as in its result dictionary. */
  datatype Tables = Tables(
    commitHashes: Frame<string>,
    authors: Frame<Person>,
    committers: Frame<Person>,
    releases: Frame<nat>,
    commitLogs: Frame<CommitLog>)

  function HashOf(r: Revision): string { r.commitHash }
  function AuthorOf(r: Revision): Person { Person(r.author, r.authorEmail) }
  function CommitterOf(r: Revision): Person { Person(r.committer, r.committerEmail) }
  function EmailOf(p: Person): string { p.email }

  /** The e-mail column of a person table, with its labels. */
  function Emails(people: Frame<Person>): Frame<string> {
    Select(people, EmailOf)
  }

  /**
   * `get_release_revisions`: the commit hash of every tag that resolves, in
   * tag order, one row per such tag; a tag whose commit cannot be resolved
   * gives `None` and is filtered out.
   */
  function ReleaseRevisions(tags: seq<Option<string>>): (f: Frame<string>)
    ensures RangeIndexed(f)
    ensures |f| == |PresentPositions(tags)|
    ensures forall j :: 0 <= j < |f| ==> tags[PresentPositions(tags)[j]] == Some(f[j].value)
    ensures forall i :: 0 <= i < |tags| && tags[i].Some? ==> tags[i].value in Values(f)
  {
    var hs := Present(tags);
    assert Values(Labelled(hs)) == hs;
    Labelled(hs)
  }

  /** The rows of `f` whose hash was not stored by an earlier run; all rows when there is no earlier run. */
  function Unseen<T>(f: Frame<T>, hash: T -> string, previous: Option<set<string>>): (g: Frame<T>)
    ensures |g| <= |f|
    ensures forall j :: 0 <= j < |g| ==> g[j] in f
    ensures previous.Some? ==> forall j :: 0 <= j < |g| ==> hash(g[j].value) !in previous.value
    ensures forall i :: 0 <= i < |f| && (previous.None? || hash(f[i].value) !in previous.value) ==> f[i] in g
    ensures IncreasingLabels(f) ==> IncreasingLabels(g)
  {
    if previous.None? then f else Where(f, x => hash(x) !in previous.value)
  }

  /**
   * The positions of the releases whose hash has a row in `hashes`,
   * ascending: the rows `dropna` keeps after the replacement.
   */
  function ResolvingPositions(releases: Frame<string>, hashes: Frame<string>): (ps: seq<nat>)
    ensures |ps| <= |releases|
    ensures forall j :: 0 <= j < |ps| ==> ps[j] < |releases| && releases[ps[j]].value in Values(hashes)
    ensures forall i :: 0 <= i < |releases| && releases[i].value in Values(hashes) ==> i in ps
    ensures forall j, k :: 0 <= j < k < |ps| ==> ps[j] < ps[k]
  {
    var ids := ReplaceWithIndex(releases, hashes);
    assert forall i :: 0 <= i < |releases| ==> Values(ids)[i] == ids[i].value;
    PresentPositions(Values(ids))
  }

  /**
   * The release frame after its hashes are replaced by commit-hash labels and
   * `dropna(ignore_index=True)`: one row per release whose hash is in
   * `hashes`, in release order, holding the label `hashes` gives that hash,
   * relabelled 0..n-1.
   */
  function ResolveReleases(releases: Frame<string>, hashes: Frame<string>): (r: Frame<nat>)
    ensures RangeIndexed(r)
    ensures |r| == |ResolvingPositions(releases, hashes)|
    ensures forall j :: 0 <= j < |r| ==>
      Lookup(hashes, releases[ResolvingPositions(releases, hashes)[j]].value) == Some(r[j].value)
    ensures forall j :: 0 <= j < |r| ==> exists i :: 0 <= i < |releases| && Row(r[j].value, releases[i].value) in hashes
    ensures forall i :: 0 <= i < |releases| && releases[i].value in Values(hashes) ==>
      exists j :: 0 <= j < |r| && Row(r[j].value, releases[i].value) in hashes
  {
    var ids := ReplaceWithIndex(releases, hashes);
    var kept := Present(Values(ids));
    assert Values(Labelled(kept)) == kept;
    ResolvedFromRelease(releases, hashes, ids, kept);
    ReleaseResolved(releases, hashes, ids, kept);
    ResolvedInOrder(releases, hashes, ids, kept);
    Labelled(kept)
  }

  /** The i-th kept label is the lookup of the release at the i-th resolving position. */
  lemma ResolvedInOrder(releases: Frame<string>, hashes: Frame<string>, ids: Frame<Option<nat>>, kept: seq<nat>)
    requires ids == ReplaceWithIndex(releases, hashes)
    requires kept == Present(Values(ids))
    ensures |kept| == |ResolvingPositions(releases, hashes)|
    ensures forall j :: 0 <= j < |kept| ==> Lookup(hashes, releases[ResolvingPositions(releases, hashes)[j]].value) == Some(kept[j])
  {
    var ps := ResolvingPositions(releases, hashes);
    assert ps == PresentPositions(Values(ids));
    forall j | 0 <= j < |kept| ensures Lookup(hashes, releases[ps[j]].value) == Some(kept[j]) {
      assert Values(ids)[ps[j]] == Some(kept[j]);
      assert ids[ps[j]].value == Lookup(hashes, releases[ps[j]].value);
    }
  }

  lemma ResolvedFromRelease(releases: Frame<string>, hashes: Frame<string>, ids: Frame<Option<nat>>, kept: seq<nat>)
    requires ids == ReplaceWithIndex(releases, hashes)
    requires kept == Present(Values(ids))
    ensures forall j :: 0 <= j < |kept| ==> exists i :: 0 <= i < |releases| && Row(kept[j], releases[i].value) in hashes
  {
    forall j | 0 <= j < |kept| ensures exists i :: 0 <= i < |releases| && Row(kept[j], releases[i].value) in hashes {
      var i :| 0 <= i < |ids| && Values(ids)[i] == Some(kept[j]);
      assert ids[i].value == Some(kept[j]);
      var k :| 0 <= k < |hashes| && hashes[k] == Row(kept[j], releases[i].value);
    }
  }

  lemma ReleaseResolved(releases: Frame<string>, hashes: Frame<string>, ids: Frame<Option<nat>>, kept: seq<nat>)
    requires ids == ReplaceWithIndex(releases, hashes)
    requires kept == Present(Values(ids))
    ensures forall i :: 0 <= i < |releases| && releases[i].value in Values(hashes) ==>
      exists j :: 0 <= j < |kept| && Row(kept[j], releases[i].value) in hashes
  {
    forall i | 0 <= i < |releases| && releases[i].value in Values(hashes)
      ensures exists j :: 0 <= j < |kept| && Row(kept[j], releases[i].value) in hashes
    {
      assert Values(ids)[i] == ids[i].value;
      var k :| 0 <= k < |hashes| && hashes[k] == Row(ids[i].value.value, releases[i].value);
      var j :| 0 <= j < |kept| && kept[j] == ids[i].value.value;
    }
  }

  /**
   * One commit-log row after the five reference replacements, the column drop
   * and the renames.
   */
  function NormaliseLog(r: Revision, hashes: Frame<string>, authors: Frame<Person>, committers: Frame<Person>): (c: CommitLog)
    ensures c.commitHashId.None? <==> r.commitHash !in Values(hashes)
    ensures c.commitHashId.Some? ==> Row(c.commitHashId.value, r.commitHash) in hashes
    ensures c.authorId.None? <==> r.authorEmail !in Values(Emails(authors))
    ensures c.authorId.Some? ==> Row(c.authorId.value, r.authorEmail) in Emails(authors)
    ensures c.committerId.None? <==> r.committerEmail !in Values(Emails(committers))
    ensures c.committerId.Some? ==> Row(c.committerId.value, r.committerEmail) in Emails(committers)
    ensures DecodeRefs(AuthorEmail, c.coAuthorIds) == Some(RefList(r.coAuthorEmails, Emails(authors)))
    ensures DecodeRefs(CommitHash, c.parentHashIds) == Some(RefList(r.parents, hashes))
    ensures c.authoredAt == r.authoredAt && c.committedAt == r.committedAt
    ensures c.encoding == r.encoding && c.gpgsign == r.gpgsign && c.message == r.message
  {
    var coAuthors := RefList(r.coAuthorEmails, Emails(authors));
    var parents := RefList(r.parents, hashes);
    DecodeEncodeRefs(AuthorEmail, coAuthors);
    DecodeEncodeRefs(CommitHash, parents);
    var c := CommitLog(
      authorId := Lookup(Emails(authors), r.authorEmail),
      authoredAt := r.authoredAt,
      coAuthorIds := EncodeRefs(AuthorEmail, coAuthors),
      commitHashId := Lookup(hashes, r.commitHash),
      committedAt := r.committedAt,
      committerId := Lookup(Emails(committers), r.committerEmail),
      encoding := r.encoding,
      gpgsign := r.gpgsign,
      message := r.message,
      parentHashIds := EncodeRefs(CommitHash, parents));
    LookupRow(hashes, r.commitHash);
    LookupRow(Emails(authors), r.authorEmail);
    LookupRow(Emails(committers), r.committerEmail);
    c
  }

  lemma LookupRow<K(!new)>(table: Frame<K>, v: K)
    ensures Lookup(table, v).None? <==> v !in Values(table)
    ensures Lookup(table, v).Some? ==> Row(Lookup(table, v).value, v) in table
  {
    if v in Values(table) {
      var i :| 0 <= i < |table| && Values(table)[i] == v;
      assert table[i].value == v;
    }
  }

  /** Every kept row of the commit log, normalised against the static tables, labels unchanged. */
  function NormaliseLogs(kept: Frame<Revision>, hashes: Frame<string>, authors: Frame<Person>, committers: Frame<Person>): (logs: Frame<CommitLog>)
    ensures |logs| == |kept|
    ensures forall i :: 0 <= i < |kept| ==>
      logs[i] == Row(kept[i].index, NormaliseLog(kept[i].value, hashes, authors, committers))
  {
    seq(|kept|, i requires 0 <= i < |kept| => Row(kept[i].index, NormaliseLog(kept[i].value, hashes, authors, committers)))
  }

  /**
   * `parse_vcs` on the commits of a repository (oldest first), the tag
   * resolutions and the hashes stored by an earlier run, if any.
   */
  function ParseVcs(revisions: seq<Revision>, tags: seq<Option<string>>, previous: Option<set<string>>): (t: Tables)
    ensures |t.releases| <= |tags|
  {
    var kept := Kept(revisions, previous);
    var hashes := Select(kept, HashOf);
    var authors := SelectDistinct(kept, AuthorOf, EmailOf);
    var committers := SelectDistinct(kept, CommitterOf, EmailOf);
    Tables(
      commitHashes := hashes,
      authors := authors,
      committers := committers,
      releases := ReleaseTable(tags, previous, hashes),
      commitLogs := NormaliseLogs(kept, hashes, authors, committers))
  }

  /** The `releases` table: the new tags' commits, resolved against this run's commit hashes. */
  function ReleaseTable(tags: seq<Option<string>>, previous: Option<set<string>>, hashes: Frame<string>): (r: Frame<nat>)
    ensures |r| <= |tags|
  {
    ResolveReleases(Unseen(ReleaseRevisions(tags), Identity, previous), hashes)
  }

  /** A hash an earlier run has not stored. */
  predicate IsNew(hash: string, previous: Option<set<string>>) {
    previous.None? || hash !in previous.value
  }

  /**
   * The revisions `parse_vcs` keeps: those whose hash an earlier run has not
   * stored, in commit order, labelled by their position among all revisions.
   */
  function Kept(revisions: seq<Revision>, previous: Option<set<string>>): (kept: Frame<Revision>)
    ensures |kept| <= |revisions|
    ensures IncreasingLabels(kept)
    ensures forall j :: 0 <= j < |kept| ==>
      kept[j].index < |revisions| && kept[j].value == revisions[kept[j].index] && IsNew(kept[j].value.commitHash, previous)
    ensures forall i :: 0 <= i < |revisions| && IsNew(revisions[i].commitHash, previous) ==> Row(i, revisions[i]) in kept
  {
    var all := Labelled(revisions);
    var kept := Unseen(all, HashOf, previous);
    forall j | 0 <= j < |kept|
      ensures kept[j].index < |revisions| && kept[j].value == revisions[kept[j].index]
    {
      assert kept[j] in all;
    }
    forall i | 0 <= i < |revisions| && IsNew(revisions[i].commitHash, previous) ensures Row(i, revisions[i]) in kept {
      assert all[i] == Row(i, revisions[i]);
    }
    kept
  }

  /**
   * The commit-hash table lists the hashes of the revisions not stored
   * before, in commit order, each under the revision's original position.
   */
  lemma CommitHashesInOrder(revisions: seq<Revision>, tags: seq<Option<string>>, previous: Option<set<string>>, h: Frame<string>)
    requires h == ParseVcs(revisions, tags, previous).commitHashes
    ensures IncreasingLabels(h)
    ensures forall j :: 0 <= j < |h| ==>
      h[j].index < |revisions| && h[j].value == revisions[h[j].index].commitHash && IsNew(h[j].value, previous)
    ensures forall i :: 0 <= i < |revisions| && IsNew(revisions[i].commitHash, previous) ==> Row(i, revisions[i].commitHash) in h
  {
    ParseVcsHashes(revisions, tags, previous);
    HashTable(revisions, previous);
  }

  lemma ParseVcsHashes(revisions: seq<Revision>, tags: seq<Option<string>>, previous: Option<set<string>>)
    ensures ParseVcs(revisions, tags, previous).commitHashes == Select(Kept(revisions, previous), HashOf)
  {
  }

  lemma HashTable(revisions: seq<Revision>, previous: Option<set<string>>)
    ensures var h := Select(Kept(revisions, previous), HashOf);
      && IncreasingLabels(h)
      && (forall j :: 0 <= j < |h| ==>
            h[j].index < |revisions| && h[j].value == revisions[h[j].index].commitHash && IsNew(h[j].value, previous))
      && (forall i :: 0 <= i < |revisions| && IsNew(revisions[i].commitHash, previous) ==> Row(i, revisions[i].commitHash) in h)
  {
    var kept := Kept(revisions, previous);
    var h := Select(kept, HashOf);
    forall i | 0 <= i < |revisions| && IsNew(revisions[i].commitHash, previous) ensures Row(i, revisions[i].commitHash) in h {
      var j :| 0 <= j < |kept| && kept[j] == Row(i, revisions[i]);
      assert h[j] == Row(i, revisions[i].commitHash);
    }
  }

  /** With an earlier run given, the commit-hash table holds no hash that run stored. */
  lemma HashesSkipPrevious(revisions: seq<Revision>, tags: seq<Option<string>>, previous: Option<set<string>>)
    requires previous.Some?
    ensures var t := ParseVcs(revisions, tags, previous);
      forall j :: 0 <= j < |t.commitHashes| ==> t.commitHashes[j].value !in previous.value
  {
    HashTable(revisions, previous);
  }

  /** With an earlier run given, every commit-log row comes from a revision that run did not store. */
  lemma LogsSkipPrevious(revisions: seq<Revision>, tags: seq<Option<string>>, previous: Option<set<string>>)
    requires previous.Some?
    ensures var t := ParseVcs(revisions, tags, previous);
      forall j :: 0 <= j < |t.commitLogs| ==>
        t.commitLogs[j].index < |revisions| && revisions[t.commitLogs[j].index].commitHash !in previous.value
  {
  }

  /** With an earlier run given, every release refers to a commit-hash row that run did not store. */
  lemma ReleasesSkipPrevious(revisions: seq<Revision>, tags: seq<Option<string>>, previous: Option<set<string>>)
    requires previous.Some?
    ensures var t := ParseVcs(revisions, tags, previous);
      forall j :: 0 <= j < |t.releases| ==>
        exists k :: (0 <= k < |t.commitHashes| && t.commitHashes[k].index == t.releases[j].value
          && t.commitHashes[k].value !in previous.value)
  {
    ReleasesNew(revisions, tags, previous);
  }

  lemma ReleasesNew(revisions: seq<Revision>, tags: seq<Option<string>>, previous: Option<set<string>>)
    ensures var h := Select(Kept(revisions, previous), HashOf);
      var r := ResolveReleases(Unseen(ReleaseRevisions(tags), Identity, previous), h);
      forall j :: 0 <= j < |r| ==>
        exists k :: 0 <= k < |h| && h[k].index == r[j].value && IsNew(h[k].value, previous)
  {
    HashesNew(revisions, previous);
    ReleaseIdsIn(Unseen(ReleaseRevisions(tags), Identity, previous), Select(Kept(revisions, previous), HashOf), previous);
  }

  lemma HashesNew(revisions: seq<Revision>, previous: Option<set<string>>)
    ensures var h := Select(Kept(revisions, previous), HashOf);
      forall k :: 0 <= k < |h| ==> IsNew(h[k].value, previous)
  {
  }

  lemma ReleaseIdsIn(releases: Frame<string>, h: Frame<string>, previous: Option<set<string>>)
    requires forall k :: 0 <= k < |h| ==> IsNew(h[k].value, previous)
    ensures var r := ResolveReleases(releases, h);
      forall j :: 0 <= j < |r| ==> exists k :: 0 <= k < |h| && h[k].index == r[j].value && IsNew(h[k].value, previous)
  {
    var r := ResolveReleases(releases, h);
    forall j | 0 <= j < |r| ensures exists k :: 0 <= k < |h| && h[k].index == r[j].value && IsNew(h[k].value, previous) {
      var i :| 0 <= i < |releases| && Row(r[j].value, releases[i].value) in h;
      var k :| 0 <= k < |h| && h[k] == Row(r[j].value, releases[i].value);
    }
  }

  /** A re-run over revisions that were all stored before produces five empty tables. */
  lemma RerunIsEmpty(revisions: seq<Revision>, tags: seq<Option<string>>, previous: Option<set<string>>)
    requires previous.Some?
    requires forall i :: 0 <= i < |revisions| ==> revisions[i].commitHash in previous.value
    ensures ParseVcs(revisions, tags, previous) == Tables([], [], [], [], [])
  {
    NothingNewKept(revisions, previous);
    var kept := Kept(revisions, previous);
    NoKeysNoRows(SelectDistinct(kept, AuthorOf, EmailOf), EmailOf);
    NoKeysNoRows(SelectDistinct(kept, CommitterOf, EmailOf), EmailOf);
    NoHashesNoReleases(Unseen(ReleaseRevisions(tags), Identity, previous), Select(kept, HashOf));
  }

  lemma NothingNewKept(revisions: seq<Revision>, previous: Option<set<string>>)
    ensures (forall i :: 0 <= i < |revisions| ==> !IsNew(revisions[i].commitHash, previous)) ==> Kept(revisions, previous) == []
  {
    var kept := Kept(revisions, previous);
    assert |kept| > 0 ==> IsNew(revisions[kept[0].index].commitHash, previous);
  }

  lemma NoKeysNoRows<T>(f: Frame<T>, key: T -> string)
    ensures KeysOf(Values(f), key) == {} ==> f == []
  {
    assert |f| > 0 ==> key(Values(f)[0]) in KeysOf(Values(f), key);
  }

  lemma NoHashesNoReleases(releases: Frame<string>, hashes: Frame<string>)
    ensures hashes == [] ==> ResolveReleases(releases, hashes) == []
  {
    var r := ResolveReleases(releases, hashes);
    assert |r| > 0 ==> exists i :: 0 <= i < |releases| && Row(r[0].value, releases[i].value) in hashes;
  }

  /**
   * The author table holds one row per e-mail of a new revision, and that row
   * is the author of the first new revision with that e-mail.
   */
  lemma AuthorsFirstSeen(revisions: seq<Revision>, tags: seq<Option<string>>, previous: Option<set<string>>)
    ensures var a := ParseVcs(revisions, tags, previous).authors;
      && RangeIndexed(a)
      && DistinctKeys(Values(a), EmailOf)
      && KeysOf(Values(a), EmailOf) == NewEmails(revisions, previous, AuthorOf)
      && (forall j :: 0 <= j < |a| ==> FirstNewRow(revisions, previous, AuthorOf, a[j].value))
  {
    var kept := Kept(revisions, previous);
    FirstSeen(revisions, previous, AuthorOf);
  }

  /** The committer table, likewise, by committer e-mail. */
  lemma CommittersFirstSeen(revisions: seq<Revision>, tags: seq<Option<string>>, previous: Option<set<string>>)
    ensures var c := ParseVcs(revisions, tags, previous).committers;
      && RangeIndexed(c)
      && DistinctKeys(Values(c), EmailOf)
      && KeysOf(Values(c), EmailOf) == NewEmails(revisions, previous, CommitterOf)
      && (forall j :: 0 <= j < |c| ==> FirstNewRow(revisions, previous, CommitterOf, c[j].value))
  {
    FirstSeen(revisions, previous, CommitterOf);
  }

  /** The e-mails of a person role over the revisions an earlier run has not stored. */
  function NewEmails(revisions: seq<Revision>, previous: Option<set<string>>, person: Revision -> Person): set<string> {
    set i | 0 <= i < |revisions| && IsNew(revisions[i].commitHash, previous) :: person(revisions[i]).email
  }

  /** Revision `i` is new and no earlier new revision has the same person's e-mail. */
  predicate FirstNew(revisions: seq<Revision>, previous: Option<set<string>>, i: int, person: Revision -> Person) {
    && 0 <= i < |revisions|
    && IsNew(revisions[i].commitHash, previous)
    && forall i' :: 0 <= i' < i && IsNew(revisions[i'].commitHash, previous) ==>
         person(revisions[i']).email != person(revisions[i]).email
  }

  /** `row` is the person of a revision that is the first new one with its e-mail. */
  ghost predicate FirstNewRow(revisions: seq<Revision>, previous: Option<set<string>>, person: Revision -> Person, row: Person) {
    exists i :: FirstNew(revisions, previous, i, person) && row == person(revisions[i])
  }

  lemma FirstSeen(revisions: seq<Revision>, previous: Option<set<string>>, person: Revision -> Person)
    ensures KeysOf(Values(SelectDistinct(Kept(revisions, previous), person, EmailOf)), EmailOf) == NewEmails(revisions, previous, person)
    ensures var g := SelectDistinct(Kept(revisions, previous), person, EmailOf);
      forall j :: 0 <= j < |g| ==> FirstNewRow(revisions, previous, person, g[j].value)
  {
    SeenEmails(revisions, previous, person);
    FirstSeenRows(revisions, previous, person);
  }

  lemma FirstSeenRows(revisions: seq<Revision>, previous: Option<set<string>>, person: Revision -> Person)
    ensures var g := SelectDistinct(Kept(revisions, previous), person, EmailOf);
      forall j :: 0 <= j < |g| ==> FirstNewRow(revisions, previous, person, g[j].value)
  {
    var g := SelectDistinct(Kept(revisions, previous), person, EmailOf);
    forall j | 0 <= j < |g| ensures FirstNewRow(revisions, previous, person, g[j].value) {
      FirstSeenRow(revisions, previous, person, j);
    }
  }

  lemma SeenEmails(revisions: seq<Revision>, previous: Option<set<string>>, person: Revision -> Person)
    ensures KeysOf(Values(SelectDistinct(Kept(revisions, previous), person, EmailOf)), EmailOf) == NewEmails(revisions, previous, person)
  {
    KeptEmails(revisions, previous, person);
  }

  /** The e-mails of the kept rows are the e-mails of the new revisions. */
  lemma KeptEmails(revisions: seq<Revision>, previous: Option<set<string>>, person: Revision -> Person)
    ensures var kept := Kept(revisions, previous);
      (set i | 0 <= i < |kept| :: EmailOf(person(kept[i].value))) == NewEmails(revisions, previous, person)
  {
    var kept := Kept(revisions, previous);
    var keys := set i | 0 <= i < |kept| :: EmailOf(person(kept[i].value));
    forall e | e in NewEmails(revisions, previous, person) ensures e in keys {
      var i :| 0 <= i < |revisions| && IsNew(revisions[i].commitHash, previous) && person(revisions[i]).email == e;
      var p :| 0 <= p < |kept| && kept[p] == Row(i, revisions[i]);
      assert EmailOf(person(kept[p].value)) == e;
    }
    forall e | e in keys ensures e in NewEmails(revisions, previous, person) {
      var p :| 0 <= p < |kept| && EmailOf(person(kept[p].value)) == e;
      assert person(revisions[kept[p].index]).email == e;
    }
  }

  lemma FirstSeenRow(revisions: seq<Revision>, previous: Option<set<string>>, person: Revision -> Person, j: nat)
    requires j < |SelectDistinct(Kept(revisions, previous), person, EmailOf)|
    ensures var g := SelectDistinct(Kept(revisions, previous), person, EmailOf);
      FirstNewRow(revisions, previous, person, g[j].value)
  {
    var kept := Kept(revisions, previous);
    var g := SelectDistinct(kept, person, EmailOf);
    var s := Values(Select(kept, person));
    var p := FirstIndex(s, EmailOf, EmailOf(g[j].value));
    assert g[j].value == s[p] == person(kept[p].value);
    forall q | 0 <= q < p ensures EmailOf(person(kept[q].value)) != EmailOf(person(kept[p].value)) {
      assert s[q] == person(kept[q].value);
    }
    FirstOfKept(revisions, previous, person, p);
    assert FirstNew(revisions, previous, kept[p].index, person);
  }

  /** In a frame with increasing labels, a smaller label sits at an earlier row. */
  lemma LabelOrder<T>(f: Frame<T>, a: nat, b: nat)
    requires IncreasingLabels(f) && a < |f| && b < |f| && f[a].index < f[b].index
    ensures a < b
  {
  }

  /** A kept revision whose e-mail no earlier kept revision has is the first new one with it. */
  lemma FirstOfKept(revisions: seq<Revision>, previous: Option<set<string>>, person: Revision -> Person, p: nat)
    requires p < |Kept(revisions, previous)|
    requires var kept := Kept(revisions, previous);
      forall q :: 0 <= q < p ==> EmailOf(person(kept[q].value)) != EmailOf(person(kept[p].value))
    ensures FirstNew(revisions, previous, Kept(revisions, previous)[p].index, person)
  {
    var kept := Kept(revisions, previous);
    var i := kept[p].index;
    forall i' | 0 <= i' < i && IsNew(revisions[i'].commitHash, previous)
      ensures person(revisions[i']).email != person(revisions[i]).email
    {
      var p' :| 0 <= p' < |kept| && kept[p'] == Row(i', revisions[i']);
      LabelOrder(kept, p', p);
      assert EmailOf(person(kept[p'].value)) != EmailOf(person(kept[p].value));
    }
  }

  /**
   * Every commit-log row comes from the revision at its label, and its hash,
   * author and committer all resolve to a row of the matching table that
   * holds the original value; the remaining columns are carried over.
   */
  lemma CommitLogsResolve(revisions: seq<Revision>, tags: seq<Option<string>>, previous: Option<set<string>>)
    ensures var t := ParseVcs(revisions, tags, previous);
      forall j :: 0 <= j < |t.commitLogs| ==> LogResolves(revisions, t, previous, j)
  {
    var t := ParseVcs(revisions, tags, previous);
    forall j | 0 <= j < |t.commitLogs| ensures LogResolves(revisions, t, previous, j) {
      LogRowResolves(revisions, previous, j);
    }
  }

  /** Row `j` of the commit log comes from a new revision, and its hash and people resolve. */
  predicate LogResolves(revisions: seq<Revision>, t: Tables, previous: Option<set<string>>, j: nat)
    requires j < |t.commitLogs|
  {
    var c := t.commitLogs[j].value;
    && t.commitLogs[j].index < |revisions|
    && var r := revisions[t.commitLogs[j].index];
    && IsNew(r.commitHash, previous)
    && c.commitHashId.Some? && Row(c.commitHashId.value, r.commitHash) in t.commitHashes
    && c.authorId.Some? && c.authorId.value < |t.authors| && t.authors[c.authorId.value].value.email == r.authorEmail
    && c.committerId.Some? && c.committerId.value < |t.committers| && t.committers[c.committerId.value].value.email == r.committerEmail
    && c.authoredAt == r.authoredAt && c.committedAt == r.committedAt
    && c.encoding == r.encoding && c.gpgsign == r.gpgsign && c.message == r.message
  }

  lemma LogRowResolves(revisions: seq<Revision>, previous: Option<set<string>>, j: nat)
    requires j < |Kept(revisions, previous)|
    ensures var kept := Kept(revisions, previous);
      var hashes := Select(kept, HashOf);
      var authors := SelectDistinct(kept, AuthorOf, EmailOf);
      var committers := SelectDistinct(kept, CommitterOf, EmailOf);
      var c := NormaliseLog(kept[j].value, hashes, authors, committers);
      var r := kept[j].value;
      && c.commitHashId.Some? && Row(c.commitHashId.value, r.commitHash) in hashes
      && c.authorId.Some? && c.authorId.value < |authors| && authors[c.authorId.value].value.email == r.authorEmail
      && c.committerId.Some? && c.committerId.value < |committers| && committers[c.committerId.value].value.email == r.committerEmail
  {
    var kept := Kept(revisions, previous);
    var hashes := Select(kept, HashOf);
    assert hashes[j].value == kept[j].value.commitHash;
    PersonResolves(kept, j, SelectDistinct(kept, AuthorOf, EmailOf), AuthorOf);
    PersonResolves(kept, j, SelectDistinct(kept, CommitterOf, EmailOf), CommitterOf);
  }

  /** A kept revision's person e-mail has a row in the deduplicated table. */
  lemma PersonResolves(kept: Frame<Revision>, j: nat, people: Frame<Person>, person: Revision -> Person)
    requires j < |kept|
    requires people == SelectDistinct(kept, person, EmailOf)
    ensures person(kept[j].value).email in Values(Emails(people))
    ensures var id := Lookup(Emails(people), person(kept[j].value).email);
      id.Some? && id.value < |people| && people[id.value].value.email == person(kept[j].value).email
  {
    var e := person(kept[j].value).email;
    var k := PersonRow(kept, j, people, person);
    var emails := Emails(people);
    assert Values(emails)[k] == e;
    LookupRow(emails, e);
    var id := Lookup(emails, e).value;
    var q :| 0 <= q < |emails| && emails[q] == Row(id, e);
    assert people[q].index == q;
  }

  /** The deduplicated table has a row with the e-mail of every kept revision. */
  lemma PersonRow(kept: Frame<Revision>, j: nat, people: Frame<Person>, person: Revision -> Person) returns (k: nat)
    requires j < |kept|
    requires people == SelectDistinct(kept, person, EmailOf)
    ensures k < |people| && people[k].value.email == person(kept[j].value).email
  {
    var e := person(kept[j].value).email;
    assert e == EmailOf(person(kept[j].value));
    assert e in KeysOf(Values(people), EmailOf);
    k :| 0 <= k < |Values(people)| && EmailOf(Values(people)[k]) == e;
  }

  /**
   * Co-author and parent lists read back as one reference per original
   * element (a lone missing one for an empty list); a reference is missing
   * exactly when the e-mail or parent hash has no row in this run's tables.
   */
  lemma CommitLogListsDecode(revisions: seq<Revision>, tags: seq<Option<string>>, previous: Option<set<string>>)
    ensures var t := ParseVcs(revisions, tags, previous);
      forall j :: 0 <= j < |t.commitLogs| ==>
        var c := t.commitLogs[j].value;
        && t.commitLogs[j].index < |revisions|
        && var r := revisions[t.commitLogs[j].index];
        && DecodeRefs(AuthorEmail, c.coAuthorIds) == Some(RefList(r.coAuthorEmails, Emails(t.authors)))
        && DecodeRefs(CommitHash, c.parentHashIds) == Some(RefList(r.parents, t.commitHashes))
  {
  }
}
