/**
  The per-topic paper store of the research-assistant server. Each research
  topic owns a directory under the papers root, named by the topic's slug,
  holding one `papers_info.json` that maps arXiv short ids to paper records.
  The file system is modelled as the root's entries (each a plain file or a
  directory whose papers file is missing, corrupt or holds a collection) and
  the order in which the root lists them.
 */
module PaperStore {
  import opened Wrappers
  import opened Text

  /** The metadata kept for one paper. */
  datatype PaperRecord = PaperRecord(
    title: string,
    authors: seq<string>,
    summary: string,
    pdfUrl: string,
    published: string,
    savedAt: string)

  /** One search result, with the timestamp taken when the storage loop reached it. */
  datatype Fetched = Fetched(
    shortId: string,
    title: string,
    authors: seq<string>,
    summary: string,
    pdfUrl: string,
    published: string,
    savedAt: string)

  /** The `papers_info.json` of a topic directory. */
  datatype PapersFile = NoFile | Corrupt | Stored(papers: map<string, PaperRecord>)

  /** An entry of the papers root. */
  datatype Entry = PlainFile | Directory(file: PapersFile)

  /** The directory name of a topic: lower-cased, spaces turned into underscores. */
  function Slug(topic: string): (slug: string)
    ensures |slug| == |topic|
    ensures forall i :: 0 <= i < |slug| ==> !IsUpper(slug[i]) && slug[i] != ' '
    ensures forall i :: 0 <= i < |topic| ==> slug[i] == if topic[i] == ' ' then '_' else ToLower(topic[i])
  {
    LowerHasNoUpper(topic);
    ReplaceChar(Lower(topic), ' ', '_')
  }

  /** A slug is its own slug. */
  lemma SlugIdempotent(topic: string)
    ensures Slug(Slug(topic)) == Slug(topic)
  {
    var s := Slug(topic);
    forall c | c in s ensures !IsUpper(c) {
    }
    LowerIdentity(s);
  }

  /** `os.path.join(a, b)` on POSIX. */
  function PathJoin(a: string, b: string): string {
    if |b| > 0 && b[0] == '/' then b
    else if a == [] || a[|a| - 1] == '/' then a + b
    else a + "/" + b
  }

  const PapersFileName := "papers_info.json"

  /** The directory part `os.path.join` puts in front of a relative name. */
  function DirPrefix(a: string): string {
    if a == [] || a[|a| - 1] == '/' then a else a + "/"
  }

  /** `_topic_path`: the topic's directory under `root`; for a slug that names
      a single directory (non-empty, without '/'), the root followed by it. */
  function TopicPath(root: string, topic: string): (path: string)
    ensures Slug(topic) != [] && '/' !in Slug(topic) ==> path == DirPrefix(root) + Slug(topic)
  {
    var slug := Slug(topic);
    assert slug != [] ==> slug[0] in slug;
    PathJoin(root, slug)
  }

  /** `_papers_file`: the topic's papers file; for a slug that names a single
      directory, root/slug/papers_info.json. */
  function PapersPath(root: string, topic: string): (path: string)
    ensures Slug(topic) != [] && '/' !in Slug(topic) ==>
      path == DirPrefix(root) + Slug(topic) + "/" + PapersFileName
  {
    var dir := TopicPath(root, topic);
    var slug := Slug(topic);
    assert slug != [] && '/' !in slug ==>
      slug[|slug| - 1] in slug && dir[|dir| - 1] == slug[|slug| - 1];
    PathJoin(dir, PapersFileName)
  }

  lemma CancelPrefix(x: string, y: string, z: string)
    requires x + y == x + z
    ensures y == z
  {
    assert y == (x + y)[|x|..];
    assert z == (x + z)[|x|..];
  }

  lemma CancelSuffix(y: string, z: string, w: string)
    requires y + w == z + w
    ensures y == z
  {
    assert |y| == |z|;
    assert y == (y + w)[..|y|];
    assert z == (z + w)[..|z|];
  }

  /** Topics share a papers file exactly when they share a slug, for slugs that
      name a single directory (non-empty, without '/'). */
  lemma PapersPathIffSlug(root: string, t1: string, t2: string)
    requires Slug(t1) != [] && Slug(t2) != []
    requires '/' !in Slug(t1) && '/' !in Slug(t2)
    ensures PapersPath(root, t1) == PapersPath(root, t2) <==> Slug(t1) == Slug(t2)
  {
    var tail := "/" + PapersFileName;
    var x, s1, s2 := DirPrefix(root), Slug(t1), Slug(t2);
    if PapersPath(root, t1) == PapersPath(root, t2) {
      assert x + s1 + "/" + PapersFileName == (x + s1) + tail;
      assert x + s2 + "/" + PapersFileName == (x + s2) + tail;
      CancelSuffix(x + s1, x + s2, tail);
      CancelPrefix(x, s1, s2);
    }
  }

  /** The record stored for a search result. */
  function RecordOf(p: Fetched): PaperRecord {
    PaperRecord(p.title, p.authors, p.summary, p.pdfUrl, p.published, p.savedAt)
  }

  function Ids(fetched: seq<Fetched>): (ids: seq<string>)
    ensures |ids| == |fetched|
    ensures forall i :: 0 <= i < |fetched| ==> ids[i] == fetched[i].shortId
  {
    seq(|fetched|, i requires 0 <= i < |fetched| => fetched[i].shortId)
  }

  /** A collection with the search results written into it one after another:
      its ids are the prior ids and the ids of the results. */
  function Upserted(prior: map<string, PaperRecord>, fetched: seq<Fetched>): (r: map<string, PaperRecord>)
    ensures r.Keys == prior.Keys + set p | p in fetched :: p.shortId
  {
    if fetched == [] then prior
    else
      var init, p := fetched[..|fetched| - 1], fetched[|fetched| - 1];
      assert forall q :: q in fetched <==> q in init || q == p;
      Upserted(prior, init)[p.shortId := RecordOf(p)]
  }

  /** One more result written into the collection. */
  lemma UpsertedStep(prior: map<string, PaperRecord>, fetched: seq<Fetched>, i: nat)
    requires i < |fetched|
    ensures Upserted(prior, fetched[..i + 1]) == Upserted(prior, fetched[..i])[fetched[i].shortId := RecordOf(fetched[i])]
  {
    assert fetched[..i + 1][..i] == fetched[..i];
  }

  /** One more result's id. */
  lemma IdsStep(fetched: seq<Fetched>, i: nat)
    requires i < |fetched|
    ensures Ids(fetched[..i + 1]) == Ids(fetched[..i]) + [fetched[i].shortId]
  {
  }

  /** Entries whose id no search result carries keep their prior record. */
  lemma {:induction false} UpsertedKeepsOthers(prior: map<string, PaperRecord>, fetched: seq<Fetched>, id: string)
    requires id in prior
    requires forall i :: 0 <= i < |fetched| ==> fetched[i].shortId != id
    ensures id in Upserted(prior, fetched) && Upserted(prior, fetched)[id] == prior[id]
  {
    if fetched != [] {
      UpsertedKeepsOthers(prior, fetched[..|fetched| - 1], id);
    }
  }

  /** A repeated id keeps the record of its last search result. */
  lemma {:induction false} UpsertedLastWins(prior: map<string, PaperRecord>, fetched: seq<Fetched>, i: nat)
    requires i < |fetched|
    requires forall j :: i < j < |fetched| ==> fetched[j].shortId != fetched[i].shortId
    ensures fetched[i].shortId in Upserted(prior, fetched)
    ensures Upserted(prior, fetched)[fetched[i].shortId] == RecordOf(fetched[i])
  {
    var init := fetched[..|fetched| - 1];
    if i < |fetched| - 1 {
      UpsertedLastWins(prior, init, i);
    }
  }

  /** The record a directory's papers file holds for `id`, if any. */
  function PaperIn(entries: map<string, Entry>, name: string, id: string): Option<PaperRecord> {
    if name in entries && entries[name].Directory? && entries[name].file.Stored? && id in entries[name].file.papers
    then Some(entries[name].file.papers[id])
    else None
  }

  /** The record for `id` in the first of `names` whose papers file holds it. */
  function FirstMatch(entries: map<string, Entry>, names: seq<string>, id: string): (r: Option<PaperRecord>)
    ensures r.None? <==> forall n :: n in names ==> PaperIn(entries, n, id).None?
    ensures r.Some? ==> exists n :: n in names && PaperIn(entries, n, id) == r
  {
    if names == [] then None
    else
      assert forall n :: n in names <==> n == names[0] || n in names[1..];
      match PaperIn(entries, names[0], id)
      case Some(p) => Some(p)
      case None => FirstMatch(entries, names[1..], id)
  }

  /** `FirstMatch` finds nothing exactly when no directory holds the id, and
      otherwise the record of the first directory that does. */
  lemma {:induction false} FirstMatchSpec(entries: map<string, Entry>, names: seq<string>, id: string)
    ensures FirstMatch(entries, names, id).None? <==>
      forall i :: 0 <= i < |names| ==> PaperIn(entries, names[i], id).None?
    ensures FirstMatch(entries, names, id).Some? ==>
      exists i :: 0 <= i < |names| && PaperIn(entries, names[i], id) == FirstMatch(entries, names, id) &&
        forall j :: 0 <= j < i ==> PaperIn(entries, names[j], id).None?
  {
    if names != [] {
      FirstMatchSpec(entries, names[1..], id);
      if PaperIn(entries, names[0], id).None? {
        forall i | 0 < i < |names| ensures names[i] == names[1..][i - 1] {
        }
        if FirstMatch(entries, names, id).Some? {
          var k :| 0 <= k < |names[1..]| && PaperIn(entries, names[1..][k], id) == FirstMatch(entries, names, id) &&
            forall j :: 0 <= j < k ==> PaperIn(entries, names[1..][j], id).None?;
          assert names[1..][k] == names[k + 1];
          forall j | 0 <= j < k + 1 ensures PaperIn(entries, names[j], id).None? {
            if j > 0 {
              assert names[1..][j - 1] == names[j];
            }
          }
        }
      }
    }
  }

  /** The folders among `names`: those the root holds as directories, in order. */
  function Folders(entries: map<string, Entry>, names: seq<string>): (folders: seq<string>)
    ensures |folders| <= |names|
    ensures forall n :: n in folders <==> n in names && n in entries && entries[n].Directory?
  {
    if names == [] then []
    else
      var rest := Folders(entries, names[1..]);
      assert forall n :: n in names <==> n == names[0] || n in names[1..];
      if names[0] in entries && entries[names[0]].Directory? then [names[0]] + rest else rest
  }

  /** The folders are filtered name by name: the folders of a concatenation are
      those of each part, in order. With the membership and length bounds of
      `Folders` on a single name, this fixes the listing order. */
  lemma {:induction false} FoldersAppend(entries: map<string, Entry>, a: seq<string>, b: seq<string>)
    ensures Folders(entries, a + b) == Folders(entries, a) + Folders(entries, b)
  {
    if a != [] {
      assert (a + b)[0] == a[0];
      assert (a + b)[1..] == a[1..] + b;
      FoldersAppend(entries, a[1..], b);
      var h := if a[0] in entries && entries[a[0]].Directory? then [a[0]] else [];
      assert Folders(entries, a + b) == h + (Folders(entries, a[1..]) + Folders(entries, b));
      assert Folders(entries, a) == h + Folders(entries, a[1..]);
    } else {
      assert a + b == b;
    }
  }

  /** No name occurs twice. */
  predicate Distinct(names: seq<string>) {
    forall i, j :: 0 <= i < j < |names| ==> names[i] != names[j]
  }

  /** The folders of a duplicate-free listing are duplicate-free, as the names
      `os.listdir` returns are. */
  lemma {:induction false} FoldersDistinct(entries: map<string, Entry>, names: seq<string>)
    requires Distinct(names)
    ensures Distinct(Folders(entries, names))
  {
    if names != [] {
      var rest := names[1..];
      FoldersDistinct(entries, rest);
      assert names[0] !in rest by {
        forall k | 0 <= k < |rest| ensures rest[k] != names[0] {
          assert rest[k] == names[k + 1];
        }
      }
      var fr := Folders(entries, rest);
      if names[0] in entries && entries[names[0]].Directory? {
        var fs := [names[0]] + fr;
        assert Folders(entries, names) == fs;
        forall i, j | 0 <= i < j < |fs| ensures fs[i] != fs[j] {
          assert fs[j] == fr[j - 1] && fr[j - 1] in fr;
          assert fr[j - 1] in rest;
          if i > 0 {
            assert fs[i] == fr[i - 1];
          }
        }
      } else {
        assert Folders(entries, names) == fr;
      }
    }
  }

  const NoTopicsLine := "No topics downloaded yet."
  const TopicsHint := "Use `@<topic>` to view papers inside a topic."

  function Bullets(folders: seq<string>): (lines: seq<string>)
    ensures |lines| == |folders|
    ensures forall k :: 0 <= k < |folders| ==> lines[k] == "- " + folders[k]
  {
    seq(|folders|, k requires 0 <= k < |folders| => "- " + folders[k])
  }

  /** The lines of the folder listing: "No topics downloaded yet." exactly when
      there are no folders; otherwise one bullet per folder, in order, after the
      heading and before the hint. */
  function ListingLines(folders: seq<string>): (lines: seq<string>)
    ensures NoTopicsLine in lines <==> folders == []
    ensures folders != [] ==>
      |lines| == |folders| + 4 && lines[|lines| - 1] == TopicsHint &&
      forall k :: 0 <= k < |folders| ==> lines[k + 2] == "- " + folders[k]
  {
    var lines := ["# Available Topics", ""] +
      if folders == [] then [NoTopicsLine] else Bullets(folders) + ["", TopicsHint];
    if folders != [] then
      ListingNoNoTopics(folders, lines);
      lines
    else
      assert lines[2] == NoTopicsLine;
      lines
  }

  /** A non-empty listing has no "No topics" line: every other line differs from it. */
  lemma ListingNoNoTopics(folders: seq<string>, lines: seq<string>)
    requires folders != []
    requires lines == ["# Available Topics", ""] + Bullets(folders) + ["", TopicsHint]
    ensures NoTopicsLine !in lines
  {
    forall k | 0 <= k < |lines| ensures lines[k] != NoTopicsLine {
      if 2 <= k < |folders| + 2 {
        assert lines[k] == "- " + folders[k - 2];
        assert lines[k][0] == '-';
      }
    }
  }

  const SummaryLimit := 700

  /** A summary cut to its first 700 characters, with "..." appended exactly
      when something was cut. */
  function Truncate(summary: string): (r: string)
    ensures |summary| <= SummaryLimit ==> r == summary
    ensures |summary| > SummaryLimit ==> |r| == SummaryLimit + 3 && r[..SummaryLimit] == summary[..SummaryLimit]
    ensures |summary| > SummaryLimit ==> r[SummaryLimit..] == "..."
  {
    var cut := if |summary| <= SummaryLimit then summary else summary[..SummaryLimit];
    cut + (if |summary| > SummaryLimit then "..." else "")
  }

  /** Truncating twice is truncating once. */
  lemma TruncateIdempotent(summary: string)
    ensures Truncate(Truncate(summary)) == Truncate(summary)
  {
    if |summary| > SummaryLimit {
      var r := Truncate(summary);
      assert r[..SummaryLimit] == summary[..SummaryLimit];
    }
  }

  /** A summary is shown unchanged exactly when it is at most 700 characters
      long or is 703 characters long and already ends in "...". */
  lemma TruncateUnchanged(summary: string)
    ensures Truncate(summary) == summary <==>
      |summary| <= SummaryLimit || (|summary| == SummaryLimit + 3 && summary[SummaryLimit..] == "...")
  {
    if |summary| > SummaryLimit {
      var r := Truncate(summary);
      assert r == summary[..SummaryLimit] + "...";
      assert r[SummaryLimit..] == "...";
      if |summary| == SummaryLimit + 3 && summary[SummaryLimit..] == "..." {
        assert summary == summary[..SummaryLimit] + summary[SummaryLimit..];
      }
    }
  }

  /** The eleven lines that present one paper. */
  function PaperBlock(id: string, meta: PaperRecord): (lines: seq<string>)
    ensures |lines| == 11
    ensures lines[1] == "- **Paper ID**: " + id
    ensures lines[7] == Truncate(meta.summary)
  {
    [ "## " + meta.title,
      "- **Paper ID**: " + id,
      "- **Authors**: " + JoinWith(", ", meta.authors),
      "- **Published**: " + meta.published,
      "- **PDF URL**: [" + meta.pdfUrl + "](" + meta.pdfUrl + ")",
      "",
      "### Summary",
      Truncate(meta.summary),
      "",
      "---",
      "" ]
  }

  /** The blocks of the papers named by `ids`, in that order. */
  function Blocks(data: map<string, PaperRecord>, ids: seq<string>): (lines: seq<string>)
    requires forall k :: 0 <= k < |ids| ==> ids[k] in data
    ensures |lines| == 11 * |ids|
  {
    if ids == [] then []
    else Blocks(data, ids[..|ids| - 1]) + PaperBlock(ids[|ids| - 1], data[ids[|ids| - 1]])
  }

  /** The blocks of one more id are the blocks so far and its own block. */
  lemma BlocksStep(data: map<string, PaperRecord>, ids: seq<string>, i: nat)
    requires forall j :: 0 <= j < |ids| ==> ids[j] in data
    requires i < |ids|
    ensures Blocks(data, ids[..i + 1]) == Blocks(data, ids[..i]) + PaperBlock(ids[i], data[ids[i]])
  {
    assert ids[..i + 1][..i] == ids[..i];
  }

  /** Block `k` of `Blocks` is the block of the `k`-th id. */
  lemma {:induction false} BlocksAt(data: map<string, PaperRecord>, ids: seq<string>, k: nat)
    requires forall j :: 0 <= j < |ids| ==> ids[j] in data
    requires k < |ids|
    ensures Blocks(data, ids)[11 * k..11 * k + 11] == PaperBlock(ids[k], data[ids[k]])
  {
    var init := ids[..|ids| - 1];
    if k < |ids| - 1 {
      BlocksAt(data, init, k);
      assert Blocks(data, ids)[11 * k..11 * k + 11] == Blocks(data, init)[11 * k..11 * k + 11];
    }
  }

  /** The four heading lines; the third reads "Total papers: " and the count in
      decimal. */
  function Heading(topic: string, count: nat): (lines: seq<string>)
    ensures |lines| == 4
    ensures var total := lines[2];
      |total| > 14 && total[..14] == "Total papers: " &&
      (forall i :: 14 <= i < |total| ==> '0' <= total[i] <= '9') &&
      DecimalValue(total[14..]) == count
  {
    NatStrValue(count);
    var total := "Total papers: " + NatStr(count);
    assert total[14..] == NatStr(count);
    ["# Papers on " + Title(ReplaceChar(topic, '_', ' ')), "", "Total papers: " + NatStr(count), ""]
  }

  function NoPapersMessage(topic: string): string {
    "# No papers found for topic '" + topic + "'\n\nUse the `search_papers` tool first."
  }

  function NoDatabaseMessage(root: string): string {
    "No papers database found in '" + root + "'."
  }

  function NoInfoMessage(id: string): string {
    "No stored information for paper '" + id + "'."
  }

  /** The distinct elements of a sequence number as many as its length. */
  lemma {:induction false} DistinctCount(ids: seq<string>)
    requires forall i, j :: 0 <= i < j < |ids| ==> ids[i] != ids[j]
    ensures |set k | k in ids| == |ids|
  {
    if ids != [] {
      var init, last := ids[..|ids| - 1], ids[|ids| - 1];
      DistinctCount(init);
      assert (set k | k in ids) == (set k | k in init) + {last};
      assert last !in init;
    }
  }

  /** The rendered collection has a four-line heading that counts the papers and
      one eleven-line block per paper. */
  lemma PapersLinesCount(topic: string, data: map<string, PaperRecord>, order: seq<string>)
    requires forall id :: id in order <==> id in data
    requires forall i, j :: 0 <= i < j < |order| ==> order[i] != order[j]
    ensures forall j :: 0 <= j < |order| ==> order[j] in data
    ensures var lines := Heading(topic, |data|) + Blocks(data, order);
      |lines| == 4 + 11 * |order| && lines[2] == "Total papers: " + NatStr(|order|)
  {
    OrderCount(data, order);
  }

  /** The blocks follow the given order: block `k` names the `k`-th paper and
      shows its summary truncated. */
  lemma PapersLinesBlock(topic: string, data: map<string, PaperRecord>, order: seq<string>, k: nat)
    requires forall j :: 0 <= j < |order| ==> order[j] in data
    requires k < |order|
    ensures var lines := Heading(topic, |data|) + Blocks(data, order);
      lines[4 + 11 * k + 1] == "- **Paper ID**: " + order[k] &&
      lines[4 + 11 * k + 7] == Truncate(data[order[k]].summary)
  {
    var h, b := Heading(topic, |data|), Blocks(data, order);
    BlocksLines(data, order, k);
    assert (h + b)[4 + 11 * k + 1] == b[11 * k + 1];
    assert (h + b)[4 + 11 * k + 7] == b[11 * k + 7];
  }

  /** A duplicate-free enumeration of a collection's ids is as long as the
      collection is large. */
  lemma OrderCount(data: map<string, PaperRecord>, order: seq<string>)
    requires forall id :: id in order <==> id in data
    requires forall i, j :: 0 <= i < j < |order| ==> order[i] != order[j]
    ensures |data| == |order|
  {
    DistinctCount(order);
    assert data.Keys == set id | id in order;
  }

  /** In the blocks, line 1 of block `k` names the `k`-th paper and line 7 is its
      truncated summary. */
  lemma BlocksLines(data: map<string, PaperRecord>, ids: seq<string>, k: nat)
    requires forall j :: 0 <= j < |ids| ==> ids[j] in data
    requires k < |ids|
    ensures Blocks(data, ids)[11 * k + 1] == "- **Paper ID**: " + ids[k]
    ensures Blocks(data, ids)[11 * k + 7] == Truncate(data[ids[k]].summary)
  {
    BlocksAt(data, ids, k);
    var block := PaperBlock(ids[k], data[ids[k]]);
    assert Blocks(data, ids)[11 * k + 1] == block[1];
    assert Blocks(data, ids)[11 * k + 7] == block[7];
  }

  /** The collection the papers file of the topic's directory holds, or the
      empty collection when that file is missing or corrupt or the name is not
      a directory. */
  function Lookup(entries: map<string, Entry>, topic: string): (papers: map<string, PaperRecord>)
    ensures Slug(topic) in entries && entries[Slug(topic)].Directory? && entries[Slug(topic)].file.Stored? ==>
      papers == entries[Slug(topic)].file.papers
    ensures papers != map[] ==> Slug(topic) in entries && entries[Slug(topic)] == Directory(Stored(papers))
    ensures Slug(topic) !in entries || entries[Slug(topic)] in {PlainFile, Directory(NoFile), Directory(Corrupt)} ==>
      papers == map[]
  {
    var slug := Slug(topic);
    if slug in entries && entries[slug].Directory? && entries[slug].file.Stored?
    then entries[slug].file.papers
    else map[]
  }

  /** After the topic's papers file is written, every topic with the same slug
      loads what was written and every other topic loads what it did before. */
  lemma LookupAfterWrite(entries: map<string, Entry>, topic: string, data: map<string, PaperRecord>)
    ensures forall t ::
      Lookup(entries[Slug(topic) := Directory(Stored(data))], t) == if Slug(t) == Slug(topic) then data else Lookup(entries, t)
  {
  }

  /** The rendering after one more paper: the lines so far and its block. */
  lemma LinesStep(heading: seq<string>, data: map<string, PaperRecord>, ids: seq<string>, i: nat)
    requires forall j :: 0 <= j < |ids| ==> ids[j] in data
    requires i < |ids|
    ensures heading + Blocks(data, ids[..i]) + PaperBlock(ids[i], data[ids[i]]) == heading + Blocks(data, ids[..i + 1])
  {
    BlocksStep(data, ids, i);
  }

  /** Writing a key twice keeps the second value. */
  lemma UpdateTwice(m: map<string, Entry>, k: string, v1: Entry, v2: Entry)
    ensures m[k := v1][k := v2] == m[k := v2]
  {
  }

  /** The server's view of the papers root. */
  class Store {
    const root: string
    var rootExists: bool
    var entries: map<string, Entry>
    var listing: seq<string>

    /** The root lists each of its entries once, and has none when it is missing. */
    ghost predicate Valid()
      reads this
    {
      (!rootExists ==> entries == map[]) &&
      (forall n :: n in entries <==> n in listing) &&
      (forall i, j :: 0 <= i < j < |listing| ==> listing[i] != listing[j])
    }

    /** A store whose root does not exist yet. */
    constructor (root: string)
      ensures Valid()
      ensures this.root == root && !rootExists && entries == map[] && listing == []
    {
      this.root := root;
      rootExists := false;
      entries := map[];
      listing := [];
    }

    /** `_load_topic`: the collection in the topic's papers file, or the empty
        collection when the file is missing or corrupt. */
    function Load(topic: string): (papers: map<string, PaperRecord>)
      reads this
      ensures Slug(topic) in entries && entries[Slug(topic)].Directory? && entries[Slug(topic)].file.Stored? ==>
        papers == entries[Slug(topic)].file.papers
      ensures Slug(topic) !in entries || entries[Slug(topic)] in {PlainFile, Directory(NoFile), Directory(Corrupt)} ==>
        papers == map[]
    {
      Lookup(entries, topic)
    }

    /** The topic's directory name is taken by a plain file, so it cannot be created. */
    predicate Blocked(topic: string)
      reads this
    {
      Slug(topic) in entries && entries[Slug(topic)] == PlainFile
    }

    /** `_save_topic`: creates the root and the topic directory as needed and
        replaces the papers file with `data`; fails, changing nothing, when a
        plain file holds the directory's name. */
    method Save(topic: string, data: map<string, PaperRecord>) returns (ok: bool)
      requires Valid()
      modifies this
      ensures Valid()
      ensures ok <==> !old(Blocked(topic))
      ensures ok ==> rootExists && entries == old(entries)[Slug(topic) := Directory(Stored(data))]
      ensures ok ==> listing == if Slug(topic) in old(entries) then old(listing) else old(listing) + [Slug(topic)]
      ensures !ok ==> rootExists == old(rootExists) && entries == old(entries) && listing == old(listing)
      ensures ok ==> forall t :: Load(t) == if Slug(t) == Slug(topic) then data else Lookup(old(entries), t)
    {
      var slug := Slug(topic);
      if slug in entries && entries[slug] == PlainFile {
        return false;
      }
      ghost var before := entries;
      rootExists := true;
      if slug !in entries {
        listing := listing + [slug];
      }
      entries := entries[slug := Directory(Stored(data))];
      LookupAfterWrite(before, topic, data);
      return true;
    }

    /** One pass of the storage loop: load the topic, write the result under
        its id, save. */
    method StorePaper(topic: string, paper: Fetched) returns (ok: bool)
      requires Valid()
      modifies this
      ensures Valid()
      ensures ok <==> !old(Blocked(topic))
      ensures ok ==>
        rootExists &&
        entries == old(entries)[Slug(topic) := Directory(Stored(Lookup(old(entries), topic)[paper.shortId := RecordOf(paper)]))]
      ensures ok ==> listing == if Slug(topic) in old(entries) then old(listing) else old(listing) + [Slug(topic)]
      ensures !ok ==> rootExists == old(rootExists) && entries == old(entries) && listing == old(listing)
    {
      var meta := Load(topic);
      meta := meta[paper.shortId := RecordOf(paper)];
      ok := Save(topic, meta);
    }

    /** The storage loop of `search_papers`: for each result in stream order,
        record its id, load the topic, write the result under its id and save.
        A failed save ends the loop; every earlier save persists. */
    method StoreResults(topic: string, fetched: seq<Fetched>) returns (storedIds: seq<string>, saved: bool)
      requires Valid()
      modifies this
      ensures Valid()
      ensures saved <==> !old(Blocked(topic)) || fetched == []
      ensures saved ==> storedIds == Ids(fetched)
      ensures !saved ==> storedIds == [fetched[0].shortId]
      ensures !saved || fetched == [] ==>
        rootExists == old(rootExists) && entries == old(entries) && listing == old(listing)
      ensures saved && fetched != [] ==>
        rootExists &&
        entries == old(entries)[Slug(topic) := Directory(Stored(Upserted(Lookup(old(entries), topic), fetched)))] &&
        listing == if Slug(topic) in old(entries) then old(listing) else old(listing) + [Slug(topic)]
    {
      var slug := Slug(topic);
      ghost var blocked := Blocked(topic);
      ghost var prior := Lookup(entries, topic);
      ghost var entries0, listing0, rootExists0 := entries, listing, rootExists;
      storedIds := [];
      var i := 0;
      while i < |fetched|
        invariant 0 <= i <= |fetched|
        invariant Valid()
        invariant storedIds == Ids(fetched[..i])
        invariant i == 0 ==> rootExists == rootExists0 && entries == entries0 && listing == listing0
        invariant i > 0 ==>
          !blocked && rootExists &&
          entries == entries0[slug := Directory(Stored(Upserted(prior, fetched[..i])))] &&
          listing == if slug in entries0 then listing0 else listing0 + [slug]
      {
        var paper := fetched[i];
        IdsStep(fetched, i);
        storedIds := storedIds + [paper.shortId];
        ghost var written := Upserted(prior, fetched[..i]);
        UpsertedStep(prior, fetched, i);
        var ok := StorePaper(topic, paper);
        if !ok {
          return storedIds, false;
        }
        if i > 0 {
          UpdateTwice(entries0, slug, Directory(Stored(written)), Directory(Stored(written[paper.shortId := RecordOf(paper)])));
        }
        i := i + 1;
      }
      assert fetched[..i] == fetched;
      saved := true;
    }

    /** `search_papers` over the results the stream yields before it ends or
        fails: the reply is the literal "hi" whatever was stored, or the error
        that ended the call. Afterwards the topic loads as its prior collection
        with the results written into it in order, unless its directory name
        is taken by a plain file, and every other topic loads as before. */
    method SearchPapers(topic: string, fetched: seq<Fetched>, streamFails: bool)
      returns (reply: Result<string, SearchError>, storedIds: seq<string>)
      requires Valid()
      modifies this
      ensures Valid()
      ensures reply ==
        if old(Blocked(topic)) && fetched != [] then Err(SaveFailed)
        else if streamFails then Err(StreamFailed)
        else Ok("hi")
      ensures storedIds == if old(Blocked(topic)) && fetched != [] then [fetched[0].shortId] else Ids(fetched)
      ensures old(Blocked(topic)) || fetched == [] ==>
        rootExists == old(rootExists) && entries == old(entries) && listing == old(listing)
      ensures !old(Blocked(topic)) && fetched != [] ==>
        rootExists &&
        entries == old(entries)[Slug(topic) := Directory(Stored(Upserted(Lookup(old(entries), topic), fetched)))] &&
        listing == if Slug(topic) in old(entries) then old(listing) else old(listing) + [Slug(topic)]
      ensures !old(Blocked(topic)) ==>
        Load(topic) == Upserted(Lookup(old(entries), topic), fetched) &&
        forall t :: Slug(t) != Slug(topic) ==> Load(t) == Lookup(old(entries), t)
    {
      ghost var entries0, prior := entries, Lookup(entries, topic);
      var saved;
      storedIds, saved := StoreResults(topic, fetched);
      if !saved {
        reply := Err(SaveFailed);
        return;
      }
      if fetched != [] {
        LookupAfterWrite(entries0, topic, Upserted(prior, fetched));
      } else {
        assert Upserted(prior, fetched) == prior;
      }
      reply := if streamFails then Err(StreamFailed) else Ok("hi");
    }

    /** `extract_info`: the record of `paperId` from the first directory, in
        listing order, whose papers file holds it. */
    method ExtractInfo(paperId: string) returns (reply: InfoReply)
      ensures !rootExists ==> reply == Message(NoDatabaseMessage(root))
      ensures rootExists ==> reply == match FirstMatch(entries, listing, paperId)
        case Some(p) => PaperJson(p)
        case None => Message(NoInfoMessage(paperId))
    {
      if !rootExists {
        return Message(NoDatabaseMessage(root));
      }
      for i := 0 to |listing|
        invariant FirstMatch(entries, listing, paperId) == FirstMatch(entries, listing[i..], paperId)
      {
        assert listing[i..][1..] == listing[i + 1..];
        var found := PaperIn(entries, listing[i], paperId);
        if found.Some? {
          return PaperJson(found.value);
        }
      }
      return Message(NoInfoMessage(paperId));
    }

    /** `list_folders`: the topic folders, one bullet each in listing order. */
    method ListFolders() returns (text: string)
      requires Valid()
      ensures rootExists ==> Distinct(Folders(entries, listing))
      ensures text == JoinWith("\n", ListingLines(if rootExists then Folders(entries, listing) else []))
    {
      var lines := ["# Available Topics", ""];
      FoldersDistinct(entries, listing);
      if !rootExists {
        lines := lines + [NoTopicsLine];
        assert lines == ListingLines([]);
        return JoinWith("\n", lines);
      }
      var folders := Folders(entries, listing);
      if folders == [] {
        lines := lines + [NoTopicsLine];
      } else {
        for i := 0 to |folders|
          invariant lines == ["# Available Topics", ""] + Bullets(folders[..i])
        {
          assert Bullets(folders[..i + 1]) == Bullets(folders[..i]) + ["- " + folders[i]];
          lines := lines + ["- " + folders[i]];
        }
        assert folders[..|folders|] == folders;
        lines := lines + ["", TopicsHint];
      }
      assert lines == ListingLines(folders);
      text := JoinWith("\n", lines);
    }

    /** `topic_papers`: the topic's collection rendered in `order`, the order in
        which the loaded collection enumerates its ids. */
    method TopicPapers(topic: string, order: seq<string>) returns (text: string)
      requires forall id :: id in order <==> id in Load(topic)
      requires forall i, j :: 0 <= i < j < |order| ==> order[i] != order[j]
      ensures Load(topic) == map[] ==> text == NoPapersMessage(topic)
      ensures Load(topic) != map[] ==> text == JoinWith("\n", Heading(topic, |Load(topic)|) + Blocks(Load(topic), order))
    {
      var data := Load(topic);
      if data == map[] {
        return NoPapersMessage(topic);
      }
      var heading := Heading(topic, |data|);
      var lines := heading;
      assert forall j :: 0 <= j < |order| ==> order[j] in data by {
        forall j | 0 <= j < |order| ensures order[j] in data {
          assert order[j] in order;
        }
      }
      for i := 0 to |order|
        invariant lines == heading + Blocks(data, order[..i])
      {
        LinesStep(heading, data, order, i);
        lines := lines + PaperBlock(order[i], data[order[i]]);
      }
      assert order[..|order|] == order;
      text := JoinWith("\n", lines);
    }
  }

  /** Why a call to `search_papers` ended with an error. */
  datatype SearchError = StreamFailed | SaveFailed

  /** The reply of `extract_info`: a message, or the record it serialises. */
  datatype InfoReply = Message(text: string) | PaperJson(record: PaperRecord)

  /** Topics that differ only in letter case share a slug. */
  lemma SlugExample()
    ensures Slug("Convex Optimization") == "convex_optimization"
    ensures Slug("convex optimization") == "convex_optimization"
  {
    var lower := "convex optimization";
    assert Lower("Convex Optimization") == lower;
    LowerIdentity(lower);
    assert ReplaceChar(lower, ' ', '_') == "convex_optimization";
  }

  /** A record saved under "Convex Optimization" in a fresh store loads under
      "convex optimization", is found by its id, and its directory is listed. */
  method SaveLoadScenario(root: string, record: PaperRecord)
    returns (loaded: map<string, PaperRecord>, info: InfoReply, listing: string)
    ensures loaded == map["2101.00001" := record]
    ensures info == PaperJson(record)
    ensures listing == JoinWith("\n", ListingLines(["convex_optimization"]))
  {
    var store := new Store(root);
    var saved := map["2101.00001" := record];
    var ok := store.Save("Convex Optimization", saved);
    SlugExample();
    loaded := store.Load("convex optimization");
    info := store.ExtractInfo("2101.00001");
    assert store.listing == ["convex_optimization"];
    listing := store.ListFolders();
    assert Folders(store.entries, store.listing) == ["convex_optimization"];
  }
}
