/**
 The three frozen records the checker passes between its stages. Dafny
 datatypes are immutable values, which is what `@dataclass(frozen=True)`
 promises for the Python classes.
 */
module CpcTypes {
  import opened Outcomes

  /** One flagged contestant for one problem. `name` is the display name
      from the scoreboard, which may be missing. */
  datatype SuspiciousActivity = SuspiciousActivity(
    username: string,
    name: Option<string>,
    problemAlias: string,
    reason: string,
    details: string)
  {
    /** `self.name or self.username`: the name when it is present and
        non-empty, the username otherwise. */
    function DisplayName(): (r: string)
      ensures r == username || (name.Some? && r == name.value)
      ensures name.Some? && name.value != "" ==> r == name.value
      ensures name.None? || name.value == "" ==> r == username
    {
      if name.Some? && name.value != "" then name.value else username
    }
  }

  /** `f"{name} ({username})"`: how the report and the page label a
      contestant whose name the scoreboard knows. */
  function NameWithUsername(name: string, username: string): string {
    name + " (" + username + ")"
  }

  /** A label is never the bare username, and next to a given name it
      names exactly one username. */
  lemma LabelNamesOneUser(name: string, username: string, other: string)
    ensures NameWithUsername(name, username) != username
    ensures NameWithUsername(name, username) == NameWithUsername(name, other) <==> username == other
  {
    var l := NameWithUsername(name, username);
    assert |l| == |name| + |username| + 3;
    if l == NameWithUsername(name, other) {
      assert username == l[|name| + 2..|l| - 1];
      assert other == NameWithUsername(name, other)[|name| + 2..|l| - 1];
    }
  }

  /** A saved report of the plagiarism service for one problem and one
      service language. */
  datatype MossHtml = MossHtml(problemAlias: string, language: string, htmlPath: string)

  /** One match between two submissions; the three pairs are aligned, the
      first component describing the first submission of the match. */
  datatype Plagiarism = Plagiarism(
    usernames: (string, string),
    names: (string, string),
    resultsUrl: string,
    problemAlias: string,
    language: string,
    fileNames: (string, string),
    status: string,
    similarityPerc: int)
}
