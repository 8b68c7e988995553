/**
 The web page variant of the report post-processing: the same anchor pairs
 are read, but usernames are labelled with the contestant's name and the
 entries are ranked by the number inside their status.
 */
module Template {
  import opened Outcomes
  import opened Strings
  import opened CpcTypes
  import opened MossReport
  import Seqs

  /** The username as the page shows it: `name (username)` when the
      scoreboard knows a non-empty name for it (`if name:`), the bare
      username otherwise. */
  function Labelled(username: string, nameByUsername: map<string, string>): (r: string)
    ensures r == username <==> username !in nameByUsername || nameByUsername[username] == ""
    ensures r != username ==> r == NameWithUsername(nameByUsername[username], username)
  {
    if username in nameByUsername && nameByUsername[username] != "" then
      LabelNamesOneUser(nameByUsername[username], username, username);
      NameWithUsername(nameByUsername[username], username)
    else
      username
  }

  /** `get_results_information` of the page: the same reading as the
      report's, with the username labelled. */
  function PageResultsInformation(text: string, nameByUsername: map<string, string>): (r: Result<ResultsInfo>)
    ensures r.Ok? <==> ResultsInformation(text).Ok?
    ensures r.Ok? ==> r.value.problemAlias == ResultsInformation(text).value.problemAlias
    ensures r.Ok? ==> r.value.status == ResultsInformation(text).value.status
    ensures r.Ok? ==> r.value.fileName == ResultsInformation(text).value.fileName
    ensures r.Ok? ==> r.value.username == Labelled(ResultsInformation(text).value.username, nameByUsername)
  {
    var info :- ResultsInformation(text);
    Ok(info.(username := Labelled(info.username, nameByUsername)))
  }

  /** Reading an anchor text on the page recovers its fields, with the
      username labelled. */
  lemma PageResultsRoundTrip(root: string, info: ResultsInfo, nameByUsername: map<string, string>)
    requires PathFields(root, info)
    ensures PageResultsInformation(AnchorText(root, info), nameByUsername)
            == Ok(ResultsInfo(info.problemAlias, Labelled(info.username, nameByUsername), info.fileName, info.status))
  {
    ResultsInformationRoundTrip(root, info);
  }

  /** One row of the page: the match link and the two submissions. */
  datatype Entry = Entry(
    link: string,
    problemAlias: string,
    usernames: (string, string),
    fileNames: (string, string),
    status: string)

  /** The entry for one match pair; problem and status come from the first
      anchor only. */
  function EntryOf(nameByUsername: map<string, string>, a: Anchor, b: Anchor): (r: Result<Entry>)
    ensures r.Ok? <==> ResultsInformation(a.text).Ok? && ResultsInformation(b.text).Ok?
    ensures r.Ok? ==> r.value.link == a.href
    ensures r.Ok? ==> var first, second := ResultsInformation(a.text).value, ResultsInformation(b.text).value;
                      && r.value.problemAlias == first.problemAlias && r.value.status == first.status
                      && r.value.usernames == (Labelled(first.username, nameByUsername), Labelled(second.username, nameByUsername))
                      && r.value.fileNames == (first.fileName, second.fileName)
  {
    var first :- PageResultsInformation(a.text, nameByUsername);
    var second :- PageResultsInformation(b.text, nameByUsername);
    Ok(Entry(a.href, first.problemAlias, (first.username, second.username), (first.fileName, second.fileName), first.status))
  }

  /** The entry of two anchors Moss printed for a match holds the first
      anchor's link, problem and status, each anchor's user, labelled, and
      each anchor's file, in anchor order. */
  lemma EntryOfMatch(nameByUsername: map<string, string>,
                     a: Anchor, rootA: string, infoA: ResultsInfo,
                     b: Anchor, rootB: string, infoB: ResultsInfo)
    requires PathFields(rootA, infoA) && PathFields(rootB, infoB)
    requires a.text == AnchorText(rootA, infoA) && b.text == AnchorText(rootB, infoB)
    ensures EntryOf(nameByUsername, a, b)
            == Ok(Entry(a.href, infoA.problemAlias,
                        (Labelled(infoA.username, nameByUsername), Labelled(infoB.username, nameByUsername)),
                        (infoA.fileName, infoB.fileName), infoA.status))
  {
    PageResultsRoundTrip(rootA, infoA, nameByUsername);
    PageResultsRoundTrip(rootB, infoB, nameByUsername);
  }

  /** How `get_information_from_html` turns a match pair into an entry. */
  function EntryBuilder(nameByUsername: map<string, string>): (Anchor, Anchor) -> Result<Entry> {
    (a, b) => EntryOf(nameByUsername, a, b)
  }

  /** `status_as_int` of every entry, computed before sorting; the first
      status that is not a number raises `ValueError`. */
  function StatusKeys(entries: seq<Entry>): (r: Result<seq<nat>>)
    ensures r.Ok? <==> forall k | 0 <= k < |entries| :: SimilarityPerc(entries[k].status).Ok?
    ensures r.Ok? ==> |r.value| == |entries|
    ensures r.Ok? ==> forall k | 0 <= k < |entries| :: SimilarityPerc(entries[k].status) == Ok(r.value[k])
    decreases |entries|
  {
    if |entries| == 0 then Ok([])
    else
      var first :- SimilarityPerc(entries[0].status);
      var rest :- StatusKeys(entries[1..]);
      assert forall k | 1 <= k < |entries| :: entries[k] == entries[1..][k - 1];
      Ok([first] + rest)
  }

  /** The sort key of an entry whose status is a number. */
  function StatusKey(e: Entry): int {
    match SimilarityPerc(e.status)
    case Ok(n) => n
    case Err(_) => 0
  }

  /** `get_information_from_html` of the page: the entries of the match
      pairs, the highest percentage first. */
  function PageInformation(anchors: seq<Anchor>, nameByUsername: map<string, string>): (r: Result<seq<Entry>>)
    ensures r.Ok? ==> |r.value| <= |anchors| / 2
  {
    var entries :- PairUp(anchors, EntryBuilder(nameByUsername));
    var keys :- StatusKeys(entries);
    Ok(Seqs.SortByKeyDescending(entries, StatusKey))
  }

  /** The page fails exactly when the pairs cannot be read or a status is
      not a number. */
  lemma PageInformationFails(anchors: seq<Anchor>, nameByUsername: map<string, string>)
    ensures var entries := PairUp(anchors, EntryBuilder(nameByUsername));
            PageInformation(anchors, nameByUsername).Ok?
            <==> entries.Ok? && forall e | e in entries.value :: SimilarityPerc(e.status).Ok?
  {
    var entries := PairUp(anchors, EntryBuilder(nameByUsername));
    if entries.Ok? {
      KeysOfParsableStatuses(entries.value);
    }
  }

  /** The sort keys exist exactly when every status is a percentage. */
  lemma KeysOfParsableStatuses(es: seq<Entry>)
    ensures StatusKeys(es).Ok? <==> forall e | e in es :: SimilarityPerc(e.status).Ok?
  {
    if forall e | e in es :: SimilarityPerc(e.status).Ok? {
      assert forall k | 0 <= k < |es| :: SimilarityPerc(es[k].status).Ok?;
    }
  }

  /** The page lists the entries of the match pairs, one for one: ranked by
      non-increasing percentage, as a permutation of the pairs' entries,
      with entries of equal percentage in report order. */
  lemma PageInformationRanks(anchors: seq<Anchor>, nameByUsername: map<string, string>)
    requires PageInformation(anchors, nameByUsername).Ok?
    ensures var entries := PairUp(anchors, EntryBuilder(nameByUsername)).value;
            var r := PageInformation(anchors, nameByUsername).value;
            && BuiltFrom(entries, MatchPairs(anchors), EntryBuilder(nameByUsername))
            && Seqs.NonIncreasing(r, StatusKey)
            && (forall e | e in r :: SimilarityPerc(e.status) == Ok(StatusKey(e)))
            && multiset(r) == multiset(entries)
            && (forall k :: Seqs.WithKey(r, StatusKey, k) == Seqs.WithKey(entries, StatusKey, k))
  {
    PairUpFollowsMatchPairs(anchors, EntryBuilder(nameByUsername));
    var es := PairUp(anchors, EntryBuilder(nameByUsername)).value;
    var r := Seqs.SortByKeyDescending(es, StatusKey);
    assert StatusKeys(es).Ok?;
    Seqs.SortIsPermutation(es, StatusKey);
    forall e | e in r ensures SimilarityPerc(e.status) == Ok(StatusKey(e)) {
      assert e in multiset(r);
      assert e in es;
    }
    forall k ensures Seqs.WithKey(r, StatusKey, k) == Seqs.WithKey(es, StatusKey, k) {
      Seqs.SortIsStable(es, StatusKey, k);
    }
  }

  /** One filtered report the page is built from. */
  datatype PageReport = PageReport(problemAlias: string, lang: string, anchors: seq<Anchor>)

  /** One section of the page: its label and its entries. */
  datatype PageSection = PageSection(title: string, data: seq<Entry>)

  /** The section label `f"{lang} - {problem_alias}"`. */
  function SectionLabel(lang: string, problemAlias: string): (l: string)
    ensures |l| == |lang| + |problemAlias| + 3
    ensures l[..|lang|] == lang && l[|l| - |problemAlias|..] == problemAlias
    ensures l[|lang|..|lang| + 3] == " - "
  {
    lang + " - " + problemAlias
  }

  /** In the title of a language written without spaces, the first space
      is the one right after the language. */
  lemma FirstSpaceEndsLanguage(lang: string, problemAlias: string)
    requires ' ' !in lang
    ensures SectionLabel(lang, problemAlias)[|lang|] == ' '
    ensures forall j | 0 <= j < |lang| :: SectionLabel(lang, problemAlias)[j] != ' '
  {
    assert forall j | 0 <= j < |lang| :: SectionLabel(lang, problemAlias)[j] == lang[j];
  }

  /** Languages are written without spaces, so a section title names one
      language and one problem: the title's first space ends the
      language, and the problem follows the ` - ` after it. */
  lemma SectionLabelInjective(lang1: string, problemAlias1: string, lang2: string, problemAlias2: string)
    ensures ' ' !in lang1 && ' ' !in lang2 ==>
              (SectionLabel(lang1, problemAlias1) == SectionLabel(lang2, problemAlias2)
               <==> lang1 == lang2 && problemAlias1 == problemAlias2)
  {
    var l1, l2 := SectionLabel(lang1, problemAlias1), SectionLabel(lang2, problemAlias2);
    if ' ' !in lang1 && ' ' !in lang2 && l1 == l2 {
      FirstSpaceEndsLanguage(lang1, problemAlias1);
      FirstSpaceEndsLanguage(lang2, problemAlias2);
      assert |lang1| == |lang2|;
      assert lang1 == l1[..|lang1|] && lang2 == l2[..|lang2|];
      assert problemAlias1 == l1[|lang1| + 3..] && problemAlias2 == l2[|lang2| + 3..];
    }
  }

  /** `generate_website` up to the rendering: one section per report. */
  function GenerateWebsite(reports: seq<PageReport>, nameByUsername: map<string, string>): (r: Result<seq<PageSection>>)
    decreases |reports|
  {
    if |reports| == 0 then Ok([])
    else
      var data :- PageInformation(reports[0].anchors, nameByUsername);
      var rest :- GenerateWebsite(reports[1..], nameByUsername);
      Ok([PageSection(SectionLabel(reports[0].lang, reports[0].problemAlias), data)] + rest)
  }

  /** The page fails exactly when one of the reports cannot be read. */
  lemma {:induction false} GenerateWebsiteFails(reports: seq<PageReport>, nameByUsername: map<string, string>)
    ensures GenerateWebsite(reports, nameByUsername).Err?
            <==> exists k | 0 <= k < |reports| :: PageInformation(reports[k].anchors, nameByUsername).Err?
    decreases |reports|
  {
    if |reports| > 0 {
      var rest := reports[1..];
      GenerateWebsiteFails(rest, nameByUsername);
      if exists k | 0 <= k < |reports| :: PageInformation(reports[k].anchors, nameByUsername).Err? {
        var k :| 0 <= k < |reports| && PageInformation(reports[k].anchors, nameByUsername).Err?;
        if k > 0 {
          assert reports[k] == rest[k - 1];
        }
      }
      if GenerateWebsite(rest, nameByUsername).Err? {
        var k :| 0 <= k < |rest| && PageInformation(rest[k].anchors, nameByUsername).Err?;
        assert reports[k + 1] == rest[k];
      }
    }
  }

  /** The page has one section per report, in report order, titled with
      the report's language and problem and holding that report's entries. */
  lemma {:induction false} GenerateWebsiteSections(reports: seq<PageReport>, nameByUsername: map<string, string>)
    requires GenerateWebsite(reports, nameByUsername).Ok?
    ensures var r := GenerateWebsite(reports, nameByUsername).value;
            && |r| == |reports|
            && forall k | 0 <= k < |reports| ::
                 && r[k].title == SectionLabel(reports[k].lang, reports[k].problemAlias)
                 && PageInformation(reports[k].anchors, nameByUsername) == Ok(r[k].data)
    decreases |reports|
  {
    if |reports| > 0 {
      var rest := reports[1..];
      var tail := GenerateWebsite(rest, nameByUsername).value;
      GenerateWebsiteSections(rest, nameByUsername);
      var r := GenerateWebsite(reports, nameByUsername).value;
      assert r[1..] == tail;
      forall k | 1 <= k < |reports|
        ensures && r[k].title == SectionLabel(reports[k].lang, reports[k].problemAlias)
                && PageInformation(reports[k].anchors, nameByUsername) == Ok(r[k].data)
      {
        assert reports[k] == rest[k - 1] && r[k] == tail[k - 1];
      }
    }
  }
}
