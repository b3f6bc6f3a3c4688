/** The pure parts of the story-generation script: the file-name sanitiser,
    the choice of a file name not yet taken, and the text written to the file.
    The language-model calls, the prompts and the file system are not
    modelled; the names already on disk are an input set. */
module StoryGenerator {
  import opened Strings

  /** Characters `sanitize_filename` deletes: `< > : " / \ | ? *`. */
  predicate Forbidden(c: char) {
    c in {'<', '>', ':', '"', '/', '\\', '|', '?', '*'}
  }

  const MaxNameLength: nat := 255

  /** The name with forbidden characters deleted and spaces turned into
      underscores, in the original order. */
  function Clean(s: string): (r: string)
    ensures |r| <= |s|
    ensures forall c | c in r :: !Forbidden(c) && c != ' '
    decreases |s|
  {
    if |s| == 0 then ""
    else
      var c := s[0];
      var rest := Clean(s[1..]);
      if Forbidden(c) then rest
      else if c == ' ' then ['_'] + rest
      else [c] + rest
  }

  /** Cleaning works character by character: it distributes over concatenation. */
  lemma {:induction false} CleanAppend(a: string, b: string)
    ensures Clean(a + b) == Clean(a) + Clean(b)
    decreases |a|
  {
    if |a| == 0 {
      assert a + b == b;
    } else {
      assert (a + b)[0] == a[0];
      assert (a + b)[1..] == a[1..] + b;
      CleanAppend(a[1..], b);
    }
  }

  /** A name without forbidden characters or spaces is left as it is. */
  lemma {:induction false} CleanFixes(s: string)
    requires forall c | c in s :: !Forbidden(c) && c != ' '
    ensures Clean(s) == s
    decreases |s|
  {
    if |s| > 0 {
      assert s[0] in s;
      assert forall c | c in s[1..] :: c in s;
      CleanFixes(s[1..]);
    }
  }

  /** sanitize_filename: cleaned, then cut to its first 255 characters. */
  function Sanitize(name: string): (r: string)
    ensures |r| <= MaxNameLength
    ensures forall c | c in r :: !Forbidden(c) && c != ' '
    ensures |r| == if |Clean(name)| < MaxNameLength then |Clean(name)| else MaxNameLength
    ensures r == Clean(name)[..|r|]
  {
    var cleaned := Clean(name);
    if |cleaned| <= MaxNameLength then cleaned
    else
      assert forall c | c in cleaned[..MaxNameLength] :: c in cleaned;
      cleaned[..MaxNameLength]
  }

  /** Sanitising twice is sanitising once. */
  lemma SanitizeIdempotent(name: string)
    ensures Sanitize(Sanitize(name)) == Sanitize(name)
  {
    CleanFixes(Sanitize(name));
  }

  /** Other white space, a line break for instance, passes through, while a
      space becomes an underscore and a forbidden character goes. */
  lemma LineBreaksKept()
    ensures Sanitize("\n ?") == "\n_"
  {
    assert Clean(" ?") == ['_'] + Clean("?");
    assert Clean("\n ?") == ['\n'] + Clean(" ?");
  }

  // ---------------------------------------------------------------------------
  // A file name not yet taken
  // ---------------------------------------------------------------------------

  /** The n-th name tried: `stem.txt`, then `stem_1.txt`, `stem_2.txt`, ... */
  function Candidate(stem: string, n: nat): string {
    if n == 0 then stem + ".txt" else stem + "_" + NatToString(n) + ".txt"
  }

  /** Different attempts produce different names. */
  lemma CandidateInjective(stem: string, m: nat, n: nat)
    requires Candidate(stem, m) == Candidate(stem, n)
    ensures m == n
  {
    var a, b := Candidate(stem, m), Candidate(stem, n);
    if m > 0 && n > 0 {
      var dm, dn := NatToString(m), NatToString(n);
      assert a[|stem| + 1..|a| - 4] == dm;
      assert b[|stem| + 1..|b| - 4] == dn;
      NatToStringInjective(m, n);
    }
  }

  /** The first `n` candidates, attempt by attempt. */
  function Tried(stem: string, n: nat): set<string>
    decreases n
  {
    if n == 0 then {} else Tried(stem, n - 1) + {Candidate(stem, n - 1)}
  }

  /** A later attempt's name is none of the earlier ones. */
  lemma {:induction false} LaterNotTried(stem: string, n: nat, m: nat)
    requires n <= m
    ensures Candidate(stem, m) !in Tried(stem, n)
    decreases n
  {
    if n > 0 {
      LaterNotTried(stem, n - 1, m);
      if Candidate(stem, n - 1) == Candidate(stem, m) {
        CandidateInjective(stem, n - 1, m);
      }
    }
  }

  /** The first `n` attempts try `n` different names. */
  lemma {:induction false} TriedCount(stem: string, n: nat)
    ensures |Tried(stem, n)| == n
    decreases n
  {
    if n > 0 {
      TriedCount(stem, n - 1);
      LaterNotTried(stem, n - 1, n - 1);
      AddFresh(Tried(stem, n - 1), Candidate(stem, n - 1), n - 1);
    }
  }

  lemma AddFresh(s: set<string>, x: string, k: nat)
    requires |s| == k && x !in s
    ensures |s + {x}| == k + 1
  {
  }

  /** Names all taken on disk make a tried set that lies inside the taken ones. */
  lemma {:induction false} TriedWithin(stem: string, n: nat, existing: set<string>)
    requires forall i | 0 <= i < n :: Candidate(stem, i) in existing
    ensures Tried(stem, n) <= existing
    decreases n
  {
    if n > 0 {
      TriedWithin(stem, n - 1, existing);
    }
  }

  /** The loop in `main`: the first candidate name that does not exist yet. */
  method UniqueFilename(stem: string, existing: set<string>) returns (name: string, attempt: nat)
    ensures name == Candidate(stem, attempt)
    ensures name !in existing
    ensures forall i | 0 <= i < attempt :: Candidate(stem, i) in existing
  {
    attempt := 0;
    name := Candidate(stem, 0);
    while name in existing
      invariant name == Candidate(stem, attempt)
      invariant forall i | 0 <= i < attempt :: Candidate(stem, i) in existing
      decreases |existing| - attempt
    {
      assert Candidate(stem, attempt) in existing;
      forall i | 0 <= i < attempt + 1
        ensures Candidate(stem, i) in existing
      {
      }
      TriedCount(stem, attempt + 1);
      TriedWithin(stem, attempt + 1, existing);
      SubsetCard(Tried(stem, attempt + 1), existing);
      attempt := attempt + 1;
      name := Candidate(stem, attempt);
    }
  }

  lemma SubsetCard(a: set<string>, b: set<string>)
    requires a <= b
    ensures |a| <= |b|
  {
    assert b == a + (b - a);
  }

  /** The sanitised stem is capped at 255 characters, but the suffix comes after
      the cut: a long enough title gives a file name longer than 255. */
  lemma FilenameCanExceedLimit(title: string, n: nat)
    requires |Clean(title)| >= MaxNameLength
    ensures |Candidate(Sanitize(title), n)| > MaxNameLength
  {
  }

  // ---------------------------------------------------------------------------
  // The file text
  // ---------------------------------------------------------------------------

  const Blank: string := "\n\n"

  /** The header line of the chapter at 0-based position `i`. */
  function ChapterHeader(i: nat): string {
    "Chapter " + NatToString(i + 1)
  }

  /** `f"Chapter {i+1}\n\n{chapter_content}"`. */
  function ChapterText(i: nat, content: string): (t: string)
    ensures |t| == |ChapterHeader(i)| + |Blank| + |content|
    ensures t[..|ChapterHeader(i)|] == ChapterHeader(i)
    ensures t[|ChapterHeader(i)|..|ChapterHeader(i)| + |Blank|] == Blank
    ensures t[|ChapterHeader(i)| + |Blank|..] == content
  {
    ChapterHeader(i) + Blank + content
  }

  /** The number of decimal digits `t` starts with. */
  function LeadingDigits(t: string): nat
    decreases |t|
  {
    if |t| > 0 && '0' <= t[0] <= '9' then 1 + LeadingDigits(t[1..]) else 0
  }

  lemma {:induction false} LeadingDigitsOf(d: string, rest: string)
    requires forall c | c in d :: '0' <= c <= '9'
    requires |rest| > 0 && !('0' <= rest[0] <= '9')
    ensures LeadingDigits(d + rest) == |d|
    decreases |d|
  {
    if |d| == 0 {
      assert d + rest == rest;
    } else {
      assert d[0] in d;
      assert (d + rest)[1..] == d[1..] + rest;
      assert forall c | c in d[1..] :: c in d;
      LeadingDigitsOf(d[1..], rest);
    }
  }

  /** Digits followed by a blank line: the digits and the rest can be told apart. */
  lemma DigitsThenBlankInjective(d: string, a: string, e: string, b: string)
    requires forall c | c in d :: '0' <= c <= '9'
    requires forall c | c in e :: '0' <= c <= '9'
    requires d + (Blank + a) == e + (Blank + b)
    ensures d == e && a == b
  {
    LeadingDigitsOf(d, Blank + a);
    LeadingDigitsOf(e, Blank + b);
    var t := d + (Blank + a);
    assert t[..|d|] == d && t[..|e|] == e;
    assert t[|d| + 2..] == a && t[|e| + 2..] == b;
  }

  lemma ChapterTextAfterWord(i: nat, content: string)
    ensures ChapterText(i, content)[8..] == NatToString(i + 1) + (Blank + content)
  {
    assert ChapterText(i, content) == "Chapter " + (NatToString(i + 1) + (Blank + content));
  }

  /** A chapter's text determines both its position and its content. */
  lemma ChapterTextInjective(i: nat, a: string, j: nat, b: string)
    requires ChapterText(i, a) == ChapterText(j, b)
    ensures i == j && a == b
  {
    ChapterTextAfterWord(i, a);
    ChapterTextAfterWord(j, b);
    DigitsThenBlankInjective(NatToString(i + 1), a, NatToString(j + 1), b);
    NatToStringInjective(i + 1, j + 1);
  }

  /** The chapters of `generate_story`, numbered from 1. */
  function Chapters(contents: seq<string>): (cs: seq<string>)
    ensures |cs| == |contents|
    ensures forall i | 0 <= i < |cs| :: cs[i] == ChapterText(i, contents[i])
  {
    seq(|contents|, i requires 0 <= i < |contents| => ChapterText(i, contents[i]))
  }

  /** The chapter texts give the chapter contents back. */
  lemma ChaptersInjective(a: seq<string>, b: seq<string>)
    requires Chapters(a) == Chapters(b)
    ensures a == b
  {
    forall i | 0 <= i < |a|
      ensures a[i] == b[i]
    {
      assert Chapters(a)[i] == Chapters(b)[i];
      ChapterTextInjective(i, a[i], i, b[i]);
    }
  }

  /** What `main` writes: the title, a blank line, and the chapters separated by
      blank lines. */
  function FileText(title: string, chapters: seq<string>): (t: string)
    ensures |t| >= |title| + |Blank| && t[..|title| + |Blank|] == title + Blank
  {
    title + Blank + Join(chapters, Blank)
  }

  /** Generating one more chapter appends a blank line and that chapter. */
  lemma FileTextGrows(title: string, contents: seq<string>, next: string)
    requires |contents| > 0
    ensures FileText(title, Chapters(contents + [next]))
         == FileText(title, Chapters(contents)) + Blank + ChapterText(|contents|, next)
  {
    assert Chapters(contents + [next]) == Chapters(contents) + [ChapterText(|contents|, next)];
    JoinSnoc(Chapters(contents), ChapterText(|contents|, next), Blank);
  }
}
