// The string logic of the site build script: page titles from file names,
// the line-based section machine that cuts the header, toolbar and footer
// out of the template and splices them into every page, the YouTube URL
// rewrite, and the quote scanner that finds the links to check.
//
// File reads and writes, directory listings, `os.path.exists` and HTTP
// requests are not modelled: file contents come in as sequences of lines
// (each with its own trailing "\n"), and existence tests come in as booleans.

module AutoHeader {
  import opened Text

  /* ---------------------------------------------------------------- titles */

  /** `c.capitalize()` for a single character, on ASCII letters. */
  function Capital(c: char): (u: char)
    ensures 'a' <= c <= 'z' ==> 'A' <= u <= 'Z' && u as int - 'A' as int == c as int - 'a' as int
    ensures !('a' <= c <= 'z') ==> u == c
    ensures c != ' ' ==> u != ' '
    ensures c != '-' ==> u != '-'
  {
    if 'a' <= c <= 'z' then (c as int - 32) as char else c
  }

  /** `word[0].capitalize() + word[1:]`. */
  function CapitalizeWord(w: string): (r: string)
    requires w != []
    ensures |r| == |w| && r[1..] == w[1..]
  {
    [Capital(w[0])] + w[1..]
  }

  /** Every word capitalised, in order. */
  function Capitalized(ws: seq<string>): (r: seq<string>)
    requires forall k :: 0 <= k < |ws| ==> ws[k] != []
    ensures |r| == |ws|
    ensures forall k :: 0 <= k < |ws| ==> r[k] == CapitalizeWord(ws[k])
  {
    if ws == [] then []
    else Capitalized(ws[..|ws| - 1]) + [CapitalizeWord(ws[|ws| - 1])]
  }

  /** The words of a file name: hyphens read as spaces, ".html" dropped, split
      at every single space. There is always one word at least, no word holds
      a space or a hyphen, and the words joined by spaces give the name back
      with hyphens read as spaces and without ".html". */
  function TitleWords(filename: string): (ws: seq<string>)
    ensures |ws| >= 1
    ensures forall k :: 0 <= k < |ws| ==> NoChar(ws[k], ' ') && NoChar(ws[k], '-')
    ensures Join(ws, ' ') == RemoveSuffix(ReplaceAll(filename, "-", " "), ".html")
  {
    var stem := RemoveSuffix(ReplaceAll(filename, "-", " "), ".html");
    StemNoHyphen(filename);
    SplitJoin(stem, ' ');
    SplitNoChar(stem, ' ', '-');
    Split(stem, ' ')
  }

  predicate HasEmptyWord(ws: seq<string>)
  {
    exists k :: 0 <= k < |ws| && ws[k] == []
  }

  /** The title a page gets, or None where the script raises IndexError on an
      empty word. */
  function Title(filename: string): Option<string>
  {
    if filename == "index.html" then Some("Projects")
    else TitleOf(TitleWords(filename))
  }

  /** The words capitalised and joined with single spaces, or None if one of
      them is empty. */
  function TitleOf(ws: seq<string>): Option<string>
  {
    if HasEmptyWord(ws) then None
    else Some(Join(Capitalized(ws), ' '))
  }

  lemma JoinSnoc(ws: seq<string>, w: string, sep: char)
    requires |ws| >= 1
    ensures Join(ws + [w], sep) == Join(ws, sep) + [sep] + w
    decreases |ws|
  {
    if |ws| == 1 {
      assert (ws + [w])[1..] == [w];
    } else {
      assert (ws + [w])[1..] == ws[1..] + [w];
      JoinSnoc(ws[1..], w, sep);
    }
  }

  /** Builds the title word by word, a space before every word but the first. */
  method FilenameToTitle(filename: string) returns (title: Option<string>)
    ensures title == Title(filename)
  {
    if filename == "index.html" {
      return Some("Projects");
    }
    title := CapitalizeWords(TitleWords(filename));
  }

  /** The loop of the title builder: capitalises each word in turn and
      appends it, a space before every word but the first. */
  method CapitalizeWords(words: seq<string>) returns (title: Option<string>)
    ensures title == TitleOf(words)
  {
    var t := "";
    var i := 0;
    while i < |words|
      invariant 0 <= i <= |words|
      invariant forall k :: 0 <= k < i ==> words[k] != []
      invariant i == 0 ==> t == ""
      invariant i > 0 ==> |t| > 0 && t == Join(Capitalized(words[..i]), ' ')
    {
      var word := words[i];
      if word == [] {
        // `word[0]` raises IndexError
        assert words[i] == [];
        return None;
      }
      ghost var before := t;
      if |t| > 0 {
        t := t + " ";
      }
      t := t + [Capital(word[0])] + word[1..];
      CapitalizedStep(words, i, before);
      i := i + 1;
    }
    assert words[..i] == words;
    return Some(t);
  }

  /** One more word: the joined title grows by a space and the capitalised
      word, or is that word alone at the start. */
  lemma CapitalizedStep(ws: seq<string>, i: nat, t: string)
    requires i < |ws| && forall k :: 0 <= k <= i ==> ws[k] != []
    requires i == 0 ==> t == ""
    requires i > 0 ==> |t| > 0 && t == Join(Capitalized(ws[..i]), ' ')
    ensures (if |t| > 0 then t + " " else t) + CapitalizeWord(ws[i]) == Join(Capitalized(ws[..i + 1]), ' ')
  {
    assert ws[..i + 1][..i] == ws[..i];
    assert Capitalized(ws[..i + 1]) == Capitalized(ws[..i]) + [CapitalizeWord(ws[i])];
    if i > 0 {
      JoinSnoc(Capitalized(ws[..i]), CapitalizeWord(ws[i]), ' ');
    } else {
      assert Capitalized(ws[..1]) == [CapitalizeWord(ws[0])];
    }
  }

  lemma ReplaceCharAt(s: string, c: char, d: char)
    ensures |ReplaceAll(s, [c], [d])| == |s|
    ensures forall i :: 0 <= i < |s| ==>
      ReplaceAll(s, [c], [d])[i] == (if s[i] == c then d else s[i])
    decreases |s|
  {
    if s != [] {
      ReplaceCharAt(s[1..], c, d);
    }
  }

  /** The home page is called "Projects"; every other title is its name's
      words, each with only its first character capitalised, joined by single
      spaces: splitting the title at spaces gives those words back, and no
      hyphen is left. */
  lemma TitleWordsRoundTrip(filename: string)
    ensures filename == "index.html" ==> Title(filename) == Some("Projects")
    ensures filename != "index.html" && Title(filename).Some? ==>
      var ws := TitleWords(filename);
      var title := Title(filename).value;
      Split(title, ' ') == Capitalized(ws) &&
      NoChar(title, '-') &&
      forall k :: 0 <= k < |ws| ==>
        Split(title, ' ')[k][0] == Capital(ws[k][0]) &&
        Split(title, ' ')[k][1..] == ws[k][1..]
  {
    if filename != "index.html" && Title(filename).Some? {
      var ws := TitleWords(filename);
      var stem := RemoveSuffix(ReplaceAll(filename, "-", " "), ".html");
      StemNoHyphen(filename);
      SplitJoin(stem, ' ');
      SplitNoChar(stem, ' ', '-');
      CapitalizedRoundTrip(ws);
    }
  }

  /** Once hyphens read as spaces and the suffix is gone, no hyphen is left. */
  lemma StemNoHyphen(filename: string)
    ensures NoChar(RemoveSuffix(ReplaceAll(filename, "-", " "), ".html"), '-')
  {
    var replaced := ReplaceAll(filename, "-", " ");
    var stem := RemoveSuffix(replaced, ".html");
    ReplaceCharAt(filename, '-', ' ');
    assert NoChar(replaced, '-');
    assert stem == replaced || stem + ".html" == replaced;
    if stem != replaced {
      forall i | 0 <= i < |stem| ensures stem[i] != '-' {
        assert stem[i] == (stem + ".html")[i];
      }
    }
  }

  /** Words without spaces or hyphens, capitalised and joined at spaces, split
      back into the capitalised words, and the result has no hyphen. */
  lemma CapitalizedRoundTrip(ws: seq<string>)
    requires |ws| >= 1
    requires forall k :: 0 <= k < |ws| ==> ws[k] != [] && NoChar(ws[k], ' ') && NoChar(ws[k], '-')
    ensures Split(Join(Capitalized(ws), ' '), ' ') == Capitalized(ws)
    ensures NoChar(Join(Capitalized(ws), ' '), '-')
  {
    var cs := Capitalized(ws);
    forall k | 0 <= k < |cs| ensures NoChar(cs[k], ' ') && NoChar(cs[k], '-') {
      CapitalizeKeepsOut(ws[k]);
    }
    JoinSplit(cs, ' ');
    JoinNoChar(cs, ' ', '-');
  }

  /** Capitalising a word brings in no space and no hyphen. */
  lemma CapitalizeKeepsOut(w: string)
    requires w != [] && NoChar(w, ' ') && NoChar(w, '-')
    ensures NoChar(CapitalizeWord(w), ' ') && NoChar(CapitalizeWord(w), '-')
  {
    var r := CapitalizeWord(w);
    forall i | 0 <= i < |r| ensures r[i] != ' ' && r[i] != '-' {
      if i == 0 {
        assert w[0] != ' ' && w[0] != '-';
      } else {
        assert r[i] == r[1..][i - 1] == w[1..][i - 1] == w[i];
      }
    }
  }

  /** Pieces of a string without `c` hold no `c` either. */
  lemma {:induction false} SplitNoChar(s: string, sep: char, c: char)
    requires NoChar(s, c)
    ensures forall k :: 0 <= k < |Split(s, sep)| ==> NoChar(Split(s, sep)[k], c)
    decreases |s|
  {
    if s != [] {
      SplitNoChar(s[1..], sep, c);
      var rest := Split(s[1..], sep);
      if s[0] != sep {
        var pieces := Split(s, sep);
        forall k | 0 <= k < |pieces| ensures NoChar(pieces[k], c) {
          if k > 0 {
            assert pieces[k] == rest[k];
          } else {
            assert pieces[0] == [s[0]] + rest[0];
          }
        }
      }
    }
  }

  lemma {:induction false} JoinNoChar(ws: seq<string>, sep: char, c: char)
    requires c != sep
    requires forall k :: 0 <= k < |ws| ==> NoChar(ws[k], c)
    ensures NoChar(Join(ws, sep), c)
    decreases |ws|
  {
    if |ws| > 1 {
      JoinNoChar(ws[1..], sep, c);
      var joined := Join(ws, sep);
      assert joined == ws[0] + [sep] + Join(ws[1..], sep);
      forall i | 0 <= i < |joined| ensures joined[i] != c {
        if i < |ws[0]| {
          assert joined[i] == ws[0][i];
        } else if i > |ws[0]| {
          assert joined[i] == Join(ws[1..], sep)[i - |ws[0]| - 1];
        }
      }
    }
  }

  /** Two separators in a row leave an empty piece between them, and it is
      never the first piece. */
  lemma {:induction false} DoubledSeparator(s: string, sep: char, i: nat)
    requires i + 1 < |s| && s[i] == sep && s[i + 1] == sep
    ensures exists k :: 1 <= k < |Split(s, sep)| && Split(s, sep)[k] == []
    decreases i
  {
    var rest := Split(s[1..], sep);
    if i == 0 {
      assert rest == [[]] + Split(s[2..], sep) by {
        assert s[1..][0] == sep;
        assert s[1..][1..] == s[2..];
      }
      assert Split(s, sep)[1] == [];
    } else {
      DoubledSeparator(s[1..], sep, i - 1);
      var k :| 1 <= k < |rest| && rest[k] == [];
      if s[0] == sep {
        assert Split(s, sep)[k + 1] == [];
      } else {
        assert Split(s, sep)[k] == rest[k];
      }
    }
  }

  /** A name with two hyphens in a row has an empty word, so the script fails
      on it (unless it is the home page). */
  lemma DoubledHyphenFails(filename: string, i: nat)
    requires i + 1 < |filename| && filename[i] == '-' && filename[i + 1] == '-'
    ensures Title(filename) == None
  {
    var stem := RemoveSuffix(ReplaceAll(filename, "-", " "), ".html");
    DoubledHyphenSpaces(filename, i);
    DoubledSeparator(stem, ' ', i);
    assert filename != "index.html" by {
      assert NoChar("index.html", '-');
    }
  }

  /** The two hyphens become two spaces of the stem. */
  lemma DoubledHyphenSpaces(filename: string, i: nat)
    requires i + 1 < |filename| && filename[i] == '-' && filename[i + 1] == '-'
    ensures var stem := RemoveSuffix(ReplaceAll(filename, "-", " "), ".html");
      i + 1 < |stem| && stem[i] == ' ' && stem[i + 1] == ' '
  {
    var replaced := ReplaceAll(filename, "-", " ");
    ReplaceCharAt(filename, '-', ' ');
    var stem := RemoveSuffix(replaced, ".html");
    if EndsWith(replaced, ".html") {
      assert replaced[|stem|..] == ".html";
      assert i + 1 < |stem|;
      assert stem[i] == replaced[i] && stem[i + 1] == replaced[i + 1];
    }
  }

  /* ------------------------------------------------------- section machine */

  /** `Section`: outside every section, inside one of the three, or (on a
      page) skipping the rest of a section already replaced. */
  datatype Section = NoSection | Header | Toolbar | Footer | Surplus

  const HeadOpen := "    <head>\n"
  const ToolbarOpen := "        <div class=\"toolbar\">\n"
  const FooterOpen := "        <div class=\"footer\">\n"
  const HeadClose := "    </head>\n"
  const DivClose := "        </div>\n"

  predicate IsOpener(line: string)
  {
    line == HeadOpen || line == ToolbarOpen || line == FooterOpen
  }

  predicate Closes(line: string)
  {
    line == HeadClose || line == DivClose
  }

  /** The section a line switches to, if it is an opening marker. */
  function Entered(state: Section, line: string): (s: Section)
    ensures IsOpener(line) ==> s != NoSection && s != Surplus
    ensures !IsOpener(line) ==> s == state
  {
    if line == HeadOpen then Header
    else if line == ToolbarOpen then Toolbar
    else if line == FooterOpen then Footer
    else state
  }

  /** The template machine's state before line `n`. */
  function TemplateState(lines: seq<string>, n: nat): Section
    requires n <= |lines|
  {
    if n == 0 then NoSection
    else if Closes(lines[n - 1]) then NoSection
    else Entered(TemplateState(lines, n - 1), lines[n - 1])
  }

  /** The section line `i` is filed under. */
  function SectionOf(lines: seq<string>, i: nat): Section
    requires i < |lines|
  {
    Entered(TemplateState(lines, i), lines[i])
  }

  /** Line `j` opens section `sec`, and it stays open through line `i`: no
      later line up to `i` opens another section, and no line from `j` up to
      (not including) `i` closes one. */
  predicate OpenThrough(lines: seq<string>, j: nat, i: nat, sec: Section)
    requires j <= i < |lines|
  {
    IsOpener(lines[j]) && Entered(NoSection, lines[j]) == sec &&
    (forall k :: j < k <= i ==> !IsOpener(lines[k])) &&
    (forall k :: j <= k < i ==> !Closes(lines[k]))
  }

  lemma TemplateNeverSurplus(lines: seq<string>, n: nat)
    requires n <= |lines|
    ensures TemplateState(lines, n) != Surplus
  {
  }

  /** A line belongs to a section exactly when an opening marker for that
      section comes at or before it and neither another opening marker nor a
      closing marker comes in between; the opening and closing lines
      themselves belong to the section. */
  lemma {:induction false} SectionOfMeans(lines: seq<string>, i: nat, sec: Section)
    requires i < |lines| && sec != NoSection
    ensures SectionOf(lines, i) == sec <==>
      exists j :: 0 <= j <= i && OpenThrough(lines, j, i, sec)
  {
    if IsOpener(lines[i]) {
      if SectionOf(lines, i) == sec {
        assert OpenThrough(lines, i, i, sec);
      } else {
        forall j | 0 <= j <= i ensures !OpenThrough(lines, j, i, sec) {
        }
      }
    } else if i == 0 {
      TemplateNeverSurplus(lines, 0);
    } else if Closes(lines[i - 1]) {
      assert SectionOf(lines, i) == NoSection;
      forall j | 0 <= j <= i ensures !OpenThrough(lines, j, i, sec) {
        if j < i {
          assert !Closes(lines[i - 1]) || !OpenThrough(lines, j, i, sec);
        }
      }
    } else {
      assert SectionOf(lines, i) == SectionOf(lines, i - 1);
      SectionOfMeans(lines, i - 1, sec);
      if SectionOf(lines, i) == sec {
        var j :| 0 <= j <= i - 1 && OpenThrough(lines, j, i - 1, sec);
        assert OpenThrough(lines, j, i, sec);
      } else {
        forall j | 0 <= j <= i ensures !OpenThrough(lines, j, i, sec) {
          if j < i && OpenThrough(lines, j, i, sec) {
            assert OpenThrough(lines, j, i - 1, sec);
          }
        }
      }
    }
  }

  /** The lines of the first `n` filed under `sec`, concatenated in order. */
  function Gathered(lines: seq<string>, sec: Section, n: nat): string
    requires n <= |lines|
  {
    if n == 0 then ""
    else Gathered(lines, sec, n - 1) + (if SectionOf(lines, n - 1) == sec then lines[n - 1] else "")
  }

  /** Cuts the three sections out of the template. */
  method GetTemplateSections(lines: seq<string>) returns (header: string, toolbar: string, footer: string)
    ensures header == Gathered(lines, Header, |lines|)
    ensures toolbar == Gathered(lines, Toolbar, |lines|)
    ensures footer == Gathered(lines, Footer, |lines|)
  {
    header, toolbar, footer := "", "", "";
    var currentSection := NoSection;
    for i := 0 to |lines|
      invariant currentSection == TemplateState(lines, i)
      invariant header == Gathered(lines, Header, i)
      invariant toolbar == Gathered(lines, Toolbar, i)
      invariant footer == Gathered(lines, Footer, i)
    {
      var line := lines[i];
      currentSection := Entered(currentSection, line);
      match currentSection {
        case Header => header := header + line;
        case Toolbar => toolbar := toolbar + line;
        case Footer => footer := footer + line;
        case _ =>
      }
      if Closes(line) {
        currentSection := NoSection;
      }
    }
  }
  /* ------------------------------------------------------ YouTube rewrite */

  /** The replacements made on a line holding an embedded YouTube player:
      the cookie-free domain, then https, then a `www.` for plain-http
      cookie-free links. */
  const YouTubeSteps: seq<(string, string)> := [
    ("youtube.com", "youtube-nocookie.com"),
    ("http://", "https://"),
    ("http://youtube-nocookie.com", "http://www.youtube-nocookie.com")]

  predicate IsPlayerLine(line: string)
  {
    Contains(line, "youtube") && Contains(line, "<iframe")
  }

  /** The rewrite applied to every line: only player lines change, and on
      them no "http://" is left after the second replacement, so the third
      never finds anything to replace. */
  function YouTubeFix(line: string): (r: string)
    ensures !IsPlayerLine(line) ==> r == line
    ensures IsPlayerLine(line) ==>
      r == ReplaceAll(ReplaceAll(line, "youtube.com", "youtube-nocookie.com"), "http://", "https://") &&
      !Contains(r, "http://")
  {
    if IsPlayerLine(line) then
      PlayerRewrite(line);
      ReplaceEach(line, YouTubeSteps)
    else line
  }

  /** The three replacements on a player line come to the first two, and
      leave no "http://". */
  lemma PlayerRewrite(line: string)
    ensures var secure := ReplaceAll(ReplaceAll(line, "youtube.com", "youtube-nocookie.com"), "http://", "https://");
      ReplaceEach(line, YouTubeSteps) == secure && !Contains(secure, "http://")
  {
    var nocookie := ReplaceAll(line, "youtube.com", "youtube-nocookie.com");
    var secure := ReplaceAll(nocookie, "http://", "https://");
    var steps := YouTubeSteps;
    assert steps[1..][1..][1..] == [];
    assert ReplaceEach(line, steps) == ReplaceEach(nocookie, steps[1..]);
    assert ReplaceEach(nocookie, steps[1..]) == ReplaceEach(secure, steps[1..][1..]);
    UpgradeLeavesNoHttp(nocookie);
    ThirdReplaceIdle(secure);
  }

  lemma ThirdReplaceIdle(secure: string)
    requires !Contains(secure, "http://")
    ensures ReplaceAll(secure, "http://youtube-nocookie.com", "http://www.youtube-nocookie.com") == secure
  {
    var longer := "http://youtube-nocookie.com";
    if Contains(secure, longer) {
      assert longer[..7] == "http://";
      ContainsStart(secure, longer, 7);
    }
    ReplaceAbsent(secure, longer, "http://www.youtube-nocookie.com");
  }

  /* ------------------------------------------------------- page splicing */

  /** The three sections cut out of the template. */
  datatype Templates = Templates(header: string, toolbar: string, footer: string)

  /** Whether the page's own font, style sheet and script exist under
      assets/fonts, assets/styles and assets/scripts. */
  datatype Assets = Assets(font: bool, style: bool, script: bool)

  function Stem(filename: string): string
  {
    RemoveSuffix(filename, ".html")
  }

  /** A link to the page's own font, present exactly when the file exists. */
  function CustomFontEntry(filename: string, present: bool): (entry: string)
    ensures entry == "" <==> !present
  {
    if present then "        <link rel=\"stylesheet\" href=\"assets/fonts/" + Stem(filename) + ".css\">\n"
    else ""
  }

  /** A link to the page's own style sheet, present exactly when the file exists. */
  function CustomStyleEntry(filename: string, present: bool): (entry: string)
    ensures entry == "" <==> !present
  {
    if present then "        <link rel=\"stylesheet\" href=\"assets/styles/" + Stem(filename) + ".css\">\n"
    else ""
  }

  /** The page's own script tag, present exactly when the file exists. */
  function CustomScriptEntry(filename: string, present: bool): (entry: string)
    ensures entry == "" <==> !present
  {
    if present then "        <script src=\"assets/scripts/" + Stem(filename) + ".js\"></script>\n"
    else ""
  }

  /** The replacements made over the whole page built so far each time a
      header is inserted: the title and the three custom-entry placeholders. */
  function HeadSteps(filename: string, title: string, assets: Assets): seq<(string, string)>
  {
    [("<title>TroyDev</title>", "<title>" + title + " | TroyDev</title>"),
     ("        <!-- font -->\n", CustomFontEntry(filename, assets.font)),
     ("        <!-- style -->\n", CustomStyleEntry(filename, assets.style)),
     ("        <!-- script -->\n", CustomScriptEntry(filename, assets.script))]
  }

  /** The section a page line leaves the machine in: outside after a
      closing marker or outside a section, otherwise skipping. */
  function NextSection(state: Section, line: string): Section
  {
    if Closes(line) then NoSection
    else if Entered(state, line) == NoSection then NoSection
    else Surplus
  }

  /** The page machine's section before line `n` of the rewritten lines. */
  function PageSection(fixed: seq<string>, n: nat): Section
    requires n <= |fixed|
  {
    if n == 0 then NoSection
    else NextSection(PageSection(fixed, n - 1), fixed[n - 1])
  }

  /** The page after one more line. (The script stops at a head line whose
      title fails, so the page is left as it was there.) */
  function Emitted(filename: string, title: Option<string>, t: Templates, assets: Assets,
                   state: Section, dom: string, line: string): string
  {
    match Entered(state, line)
    case Header =>
      (match title
       case None => dom
       case Some(name) => ReplaceEach(dom + t.header, HeadSteps(filename, name, assets)))
    case Toolbar => dom + t.toolbar
    case Footer => dom + t.footer
    case NoSection => dom + line
    case Surplus => dom
  }

  /** The page built from the first `n` rewritten lines. */
  function PageDom(filename: string, title: Option<string>, t: Templates, assets: Assets,
                   fixed: seq<string>, n: nat): string
    requires n <= |fixed|
  {
    if n == 0 then ""
    else Emitted(filename, title, t, assets, PageSection(fixed, n - 1),
                 PageDom(filename, title, t, assets, fixed, n - 1), fixed[n - 1])
  }

  /** Rebuilds one page, line by line. The script stops with an IndexError
      exactly when the page has a head line and its title fails. */
  method ProcessPage(filename: string, lines: seq<string>, t: Templates, assets: Assets)
    returns (page: Option<string>)
    ensures page.None? <==> Title(filename).None? && HeadOpen in Fixed(lines)
    ensures page.Some? ==> page.value == PageDom(filename, Title(filename), t, assets, Fixed(lines), |lines|)
  {
    ghost var fixed := Fixed(lines);
    var dom := "";
    var currentSection := NoSection;
    for i := 0 to |lines|
      invariant currentSection == PageSection(fixed, i)
      invariant currentSection == NoSection || currentSection == Surplus
      invariant dom == PageDom(filename, Title(filename), t, assets, fixed, i)
      invariant Title(filename).None? ==> HeadOpen !in fixed[..i]
    {
      var line := RewriteYouTube(lines, i);
      var stop;
      stop, currentSection, dom := PageLine(filename, t, assets, currentSection, dom, line);
      if stop {
        return None;
      }
      assert fixed[..i + 1] == fixed[..i] + [line];
    }
    assert fixed[..|lines|] == fixed;
    return Some(dom);
  }

  /** The rewrite of line `i`, one replacement after another. */
  method RewriteYouTube(lines: seq<string>, i: nat) returns (line: string)
    requires i < |lines|
    ensures line == Fixed(lines)[i]
  {
    FixedAt(lines, i);
    var raw := lines[i];
    line := raw;
    if IsPlayerLine(line) {
      var steps := YouTubeSteps;
      line := ReplaceAll(line, "youtube.com", "youtube-nocookie.com");
      assert ReplaceEach(raw, steps) == ReplaceEach(line, steps[1..]);
      var secure := ReplaceAll(line, "http://", "https://");
      assert ReplaceEach(line, steps[1..]) == ReplaceEach(secure, steps[2..]);
      line := ReplaceAll(secure, "http://youtube-nocookie.com", "http://www.youtube-nocookie.com");
      assert ReplaceEach(secure, steps[2..]) == ReplaceEach(line, steps[3..]);
    }
  }

  /** Appends the header, then makes the title and custom-entry
      replacements over the whole page so far. */
  method InsertHeader(dom: string, header: string, filename: string, title: string, assets: Assets)
    returns (r: string)
    ensures r == ReplaceEach(dom + header, HeadSteps(filename, title, assets))
  {
    var steps := HeadSteps(filename, title, assets);
    var joined := dom + header;
    var titled := ReplaceAll(joined, "<title>TroyDev</title>", "<title>" + title + " | TroyDev</title>");
    assert ReplaceEach(joined, steps) == ReplaceEach(titled, steps[1..]);
    var fonted := ReplaceAll(titled, "        <!-- font -->\n", CustomFontEntry(filename, assets.font));
    assert ReplaceEach(titled, steps[1..]) == ReplaceEach(fonted, steps[2..]);
    var styled := ReplaceAll(fonted, "        <!-- style -->\n", CustomStyleEntry(filename, assets.style));
    assert ReplaceEach(fonted, steps[2..]) == ReplaceEach(styled, steps[3..]);
    r := ReplaceAll(styled, "        <!-- script -->\n", CustomScriptEntry(filename, assets.script));
    assert ReplaceEach(styled, steps[3..]) == ReplaceEach(r, steps[4..]);
  }

  /** One line of a page. `stop` where the title of a head line fails. */
  method PageLine(filename: string, t: Templates, assets: Assets, state: Section, dom: string, line: string)
    returns (stop: bool, next: Section, dom2: string)
    requires state == NoSection || state == Surplus
    ensures stop <==> line == HeadOpen && Title(filename).None?
    ensures !stop ==> next == NextSection(state, line)
    ensures !stop ==> dom2 == Emitted(filename, Title(filename), t, assets, state, dom, line)
  {
    stop, next, dom2 := false, Entered(state, line), dom;
    match next {
      case Header =>
        var title := FilenameToTitle(filename);
        if title.None? {
          return true, next, dom2;
        }
        dom2 := InsertHeader(dom, t.header, filename, title.value, assets);
        next := Surplus;
      case Toolbar =>
        dom2 := dom + t.toolbar;
        next := Surplus;
      case Footer =>
        dom2 := dom + t.footer;
        next := Surplus;
      case NoSection =>
        dom2 := dom + line;
      case Surplus =>
    }
    if Closes(line) {
      next := NoSection;
    }
  }

  /** The page lines after the YouTube rewrite. */
  function Fixed(lines: seq<string>): (r: seq<string>)
    ensures |r| == |lines|
  {
    if lines == [] then []
    else Fixed(lines[..|lines| - 1]) + [YouTubeFix(lines[|lines| - 1])]
  }

  lemma {:induction false} FixedAt(lines: seq<string>, k: nat)
    requires k < |lines|
    ensures Fixed(lines)[k] == YouTubeFix(lines[k])
    decreases |lines|
  {
    if k < |lines| - 1 {
      FixedAt(lines[..|lines| - 1], k);
    }
  }

  function TemplateFor(t: Templates, sec: Section): string
  {
    match sec
    case Header => t.header
    case Toolbar => t.toolbar
    case Footer => t.footer
    case _ => ""
  }

  /** What line `i` of a page contributes: an opening marker brings its
      section's template, a line inside a section nothing, any other line
      itself. */
  function Piece(fixed: seq<string>, t: Templates, i: nat): string
    requires i < |fixed|
  {
    if IsOpener(fixed[i]) then TemplateFor(t, Entered(NoSection, fixed[i]))
    else if SectionOf(fixed, i) == NoSection then fixed[i]
    else ""
  }

  function Spliced(fixed: seq<string>, t: Templates, n: nat): string
    requires n <= |fixed|
  {
    if n == 0 then "" else Spliced(fixed, t, n - 1) + Piece(fixed, t, n - 1)
  }

  /** While a page is rebuilt it is outside every section exactly when the
      template machine would be, and otherwise skipping. */
  lemma {:induction false} PageSectionTracksTemplate(fixed: seq<string>, n: nat)
    requires n <= |fixed|
    ensures PageSection(fixed, n) == NoSection || PageSection(fixed, n) == Surplus
    ensures PageSection(fixed, n) == NoSection <==> TemplateState(fixed, n) == NoSection
  {
    if n > 0 {
      PageSectionTracksTemplate(fixed, n - 1);
      TemplateNeverSurplus(fixed, n - 1);
    }
  }

  /** On a page without a head line, every line outside a section is copied
      (after the YouTube rewrite), each opening marker is replaced by its
      section's template, and the rest of each section, through its closing
      marker, is dropped. */
  lemma {:induction false} PageSplices(filename: string, title: Option<string>, t: Templates, assets: Assets,
                                       fixed: seq<string>, n: nat)
    requires n <= |fixed| && HeadOpen !in fixed
    ensures PageDom(filename, title, t, assets, fixed, n) == Spliced(fixed, t, n)
  {
    if n > 0 {
      var dom := PageDom(filename, title, t, assets, fixed, n - 1);
      PageSplices(filename, title, t, assets, fixed, n - 1);
      assert fixed[n - 1] != HeadOpen;
      PieceEmitted(filename, title, t, assets, fixed, n - 1, dom);
      assert PageDom(filename, title, t, assets, fixed, n) == dom + Piece(fixed, t, n - 1);
    }
  }

  /** One line of a page without a head line adds its piece. */
  lemma PieceEmitted(filename: string, title: Option<string>, t: Templates, assets: Assets,
                     fixed: seq<string>, n: nat, dom: string)
    requires n < |fixed| && fixed[n] != HeadOpen
    ensures Emitted(filename, title, t, assets, PageSection(fixed, n), dom, fixed[n])
      == dom + Piece(fixed, t, n)
  {
    var line := fixed[n];
    PageSectionTracksTemplate(fixed, n);
    var state := PageSection(fixed, n);
    if IsOpener(line) {
      assert Entered(state, line) == Entered(NoSection, line);
    } else if state == NoSection {
      assert SectionOf(fixed, n) == NoSection;
    } else {
      assert Entered(state, line) == Surplus;
      assert SectionOf(fixed, n) != NoSection;
    }
  }

  /** The files of a directory that get rebuilt. */
  predicate IsPage(name: string)
  {
    EndsWith(name, ".html") && !StartsWith(name, "template")
  }

  /** Keeps the pages of a directory listing, in listing order. */
  function Pages(names: seq<string>): (r: seq<string>)
    ensures forall name :: name in r <==> name in names && IsPage(name)
  {
    if names == [] then []
    else (if IsPage(names[0]) then [names[0]] else []) + Pages(names[1..])
  }

  /* ---------------------------------------------------------- link scanner */

  datatype QuoteState = SeekingOpen | SeekingClose

  /** A link to check: the line and column of its closing quote, the text
      between the quotes, and whether it is checked over the web. */
  datatype LinkReport = LinkReport(line: nat, column: nat, link: string, web: bool)

  function Clamp(i: int, n: nat): (r: nat)
    ensures r <= n
  {
    if i < 0 then 0 else if i > n then n else i
  }

  /** Python's `s[a:b]`: a negative bound counts from the end, and both are
      then clamped to the string. So a quote at position 0 takes its
      attribute name from the end of the page. */
  function PySlice(s: string, a: int, b: int): (r: string)
    ensures |r| <= |s|
    ensures 0 <= a <= b <= |s| ==> r == s[a..b]
    ensures -|s| <= a <= b < 0 ==> r == s[|s| + a..|s| + b]
  {
    var lo := Clamp(if a < 0 then a + |s| else a, |s|);
    var hi := Clamp(if b < 0 then b + |s| else b, |s|);
    if lo < hi then s[lo..hi] else []
  }

  /** `any(x in link for x in ["http", "https", "www"])`: the link is
      checked over the web rather than on disk. */
  predicate IsWeb(link: string)
  {
    Contains(link, "http") || Contains(link, "https") || Contains(link, "www")
  }

  /** Checking for "https" adds nothing: any link holding it holds "http". */
  lemma WebIff(link: string)
    ensures IsWeb(link) <==> Contains(link, "http") || Contains(link, "www")
  {
    if Contains(link, "https") {
      assert "https" == "http" + "s";
      ContainsPrefix(link, "http", "s");
    }
  }

  /** `attributeName in ["href", " src"]`. */
  predicate IsLinkAttribute(name: string)
  {
    name == "href" || name == " src"
  }

  /** The line of position `n`, counting from 1. */
  function LineAt(s: string, n: nat): (line: nat)
    requires n <= |s|
    ensures 1 <= line <= n + 1
  {
    if n == 0 then 1 else LineAt(s, n - 1) + (if s[n - 1] == '\n' then 1 else 0)
  }

  /** The column of position `n`, counting from 1. */
  function ColAt(s: string, n: nat): (col: nat)
    requires n <= |s|
    ensures 1 <= col <= n + 1
  {
    if n == 0 then 1
    else if s[n - 1] == '\n' then 1
    else ColAt(s, n - 1) + 1
  }

  /** The column is one more than the number of characters since the last
      newline before the position (or since the start). */
  lemma {:induction false} ColAtMeans(s: string, n: nat)
    requires n <= |s|
    ensures NoChar(s[n + 1 - ColAt(s, n)..n], '\n')
    ensures ColAt(s, n) <= n ==> s[n - ColAt(s, n)] == '\n'
  {
    if n > 0 && s[n - 1] != '\n' {
      ColAtMeans(s, n - 1);
      var c := ColAt(s, n - 1);
      assert s[n + 1 - (c + 1)..n] == s[n - c..n - 1] + [s[n - 1]];
    }
  }

  /** The positions of the quote characters before `n`, in order. */
  function Quotes(s: string, n: nat): (qs: seq<nat>)
    requires n <= |s|
    ensures forall k :: 0 <= k < |qs| ==> qs[k] < n
  {
    if n == 0 then []
    else Quotes(s, n - 1) + (if s[n - 1] == '"' then [n - 1] else [])
  }

  /** Quotes holds every quote position before `n`, and nothing else, in
      increasing order. */
  lemma {:induction false} QuotesExact(s: string, n: nat)
    requires n <= |s|
    ensures forall k :: 0 <= k < |Quotes(s, n)| ==> s[Quotes(s, n)[k]] == '"'
    ensures forall k :: 0 < k < |Quotes(s, n)| ==> Quotes(s, n)[k - 1] < Quotes(s, n)[k]
    ensures forall i :: 0 <= i < n && s[i] == '"' ==> i in Quotes(s, n)
  {
    if n > 0 {
      QuotesExact(s, n - 1);
      var qs := Quotes(s, n - 1);
      assert Quotes(s, n)[..|qs|] == qs;
    }
  }

  /** Quotes pair up in order: first with second, third with fourth, and so
      on; an unmatched last quote is left over. */
  function PairUp(qs: seq<nat>): (pairs: seq<(nat, nat)>)
    ensures |pairs| == |qs| / 2
  {
    if |qs| < 2 then [] else [(qs[0], qs[1])] + PairUp(qs[2..])
  }

  lemma {:induction false} PairUpSnoc(qs: seq<nat>, o: nat, c: nat)
    requires |qs| % 2 == 0
    ensures PairUp(qs + [o, c]) == PairUp(qs) + [(o, c)]
    decreases |qs|
  {
    if qs == [] {
      assert (qs + [o, c])[2..] == [];
    } else {
      assert (qs + [o, c])[2..] == qs[2..] + [o, c];
      PairUpSnoc(qs[2..], o, c);
    }
  }

  lemma {:induction false} PairUpDropLast(qs: seq<nat>)
    requires |qs| % 2 == 1
    ensures PairUp(qs) == PairUp(qs[..|qs| - 1])
    decreases |qs|
  {
    if |qs| > 1 {
      PairUpDropLast(qs[2..]);
      assert qs[..|qs| - 1][2..] == qs[2..][..|qs| - 3];
    }
  }

  /** Each pair is two consecutive entries of the list: the opening one at
      an even place. */
  lemma {:induction false} PairUpAt(qs: seq<nat>, k: nat)
    requires k < |PairUp(qs)|
    ensures 2 * k + 1 < |qs| && PairUp(qs)[k] == (qs[2 * k], qs[2 * k + 1])
    decreases |qs|
  {
    if k > 0 {
      PairUpAt(qs[2..], k - 1);
    }
  }

  /** The scanner between characters: its state, the last opening quote, and
      the quote pairs completed so far. */
  datatype Scanner = Scanner(state: QuoteState, openIndex: nat, pairs: seq<(nat, nat)>)

  /** The scanner after the first `n` characters. */
  function ScanAfter(s: string, n: nat): Scanner
    requires n <= |s|
  {
    if n == 0 then Scanner(SeekingOpen, 0, [])
    else
      var prev := ScanAfter(s, n - 1);
      if s[n - 1] != '"' then prev
      else if prev.state == SeekingOpen then Scanner(SeekingClose, n - 1, prev.pairs)
      else Scanner(SeekingOpen, prev.openIndex, prev.pairs + [(prev.openIndex, n - 1)])
  }

  /** The scanner state matches the quotes seen so far: it seeks a closing
      quote exactly after an odd number of them, the last one being the open
      one, and has paired up all the others in order. */
  predicate Paired(s: string, n: nat, sc: Scanner)
    requires n <= |s|
  {
    var qs := Quotes(s, n);
    (sc.state == SeekingClose <==> |qs| % 2 == 1) &&
    (sc.state == SeekingClose ==> sc.openIndex == qs[|qs| - 1] && sc.pairs == PairUp(qs[..|qs| - 1])) &&
    (sc.state == SeekingOpen ==> sc.pairs == PairUp(qs))
  }

  lemma {:induction false} ScanPairsQuotes(s: string, n: nat)
    requires n <= |s|
    ensures Paired(s, n, ScanAfter(s, n))
  {
    if n > 0 {
      ScanPairsQuotes(s, n - 1);
      var prev := ScanAfter(s, n - 1);
      if s[n - 1] != '"' {
        assert Quotes(s, n) == Quotes(s, n - 1);
      } else if prev.state == SeekingOpen {
        var qs := Quotes(s, n - 1);
        assert Quotes(s, n) == qs + [n - 1];
        assert (qs + [n - 1])[..|qs|] == qs;
      } else {
        CloseQuoteStep(s, n, prev);
      }
    }
  }

  lemma CloseQuoteStep(s: string, n: nat, prev: Scanner)
    requires 0 < n <= |s| && s[n - 1] == '"'
    requires prev == ScanAfter(s, n - 1) && prev.state == SeekingClose
    requires Paired(s, n - 1, prev)
    ensures Paired(s, n, ScanAfter(s, n))
  {
    var qs := Quotes(s, n - 1);
    var pre := qs[..|qs| - 1];
    assert qs == pre + [prev.openIndex];
    assert Quotes(s, n) == pre + [prev.openIndex, n - 1];
    PairUpSnoc(pre, prev.openIndex, n - 1);
  }

  /** The scanner's pairs are the quote pairs of the whole page. */
  lemma ScanPairsAll(s: string)
    ensures ScanAfter(s, |s|).pairs == PairUp(Quotes(s, |s|))
  {
    ScanPairsQuotes(s, |s|);
    if ScanAfter(s, |s|).state == SeekingClose {
      PairUpDropLast(Quotes(s, |s|));
    }
  }

  /** The report for the quotes at `o` and `c`, if the four characters that
      end just before the character preceding the opening quote (the `href`
      of `href="`) name an `href` or ` src` attribute. A report is located
      at the closing quote and classed by its own link text. */
  function ReportFor(s: string, o: int, c: nat): (r: seq<LinkReport>)
    requires c <= |s|
    ensures |r| <= 1
    ensures r != [] <==> IsLinkAttribute(PySlice(s, o - 5, o - 1))
    ensures forall rep :: rep in r ==>
      rep.line == LineAt(s, c) && rep.column == ColAt(s, c) && rep.web == IsWeb(rep.link)
  {
    if IsLinkAttribute(PySlice(s, o - 5, o - 1)) then
      var link := PySlice(s, o + 1, c);
      [LinkReport(LineAt(s, c), ColAt(s, c), link, IsWeb(link))]
    else []
  }

  predicate PairsWithin(pairs: seq<(nat, nat)>, n: nat)
  {
    forall k :: 0 <= k < |pairs| ==> pairs[k].1 < n
  }

  /** The reports of the pairs, in order. */
  function ReportsOf(s: string, pairs: seq<(nat, nat)>): seq<LinkReport>
    requires PairsWithin(pairs, |s|)
  {
    if pairs == [] then []
    else ReportsOf(s, pairs[..|pairs| - 1]) + ReportFor(s, pairs[|pairs| - 1].0, pairs[|pairs| - 1].1)
  }

  /** Walks the page one character at a time, pairing quotes and tracking
      the line and column; the reports are those of the page's quote pairs
      in order. */
  method ScanLinks(pageData: string) returns (reports: seq<LinkReport>)
    ensures PairsWithin(PairUp(Quotes(pageData, |pageData|)), |pageData|)
    ensures reports == ReportsOf(pageData, PairUp(Quotes(pageData, |pageData|)))
  {
    var currentLine := 1;
    var currentCharacter := 1;
    var currentState := SeekingOpen;
    var openIndex: nat := 0;
    ghost var pairs: seq<(nat, nat)> := [];
    reports := [];
    for index := 0 to |pageData|
      invariant currentLine == LineAt(pageData, index)
      invariant currentCharacter == ColAt(pageData, index)
      invariant ScanAfter(pageData, index) == Scanner(currentState, openIndex, pairs)
      invariant PairsWithin(pairs, index)
      invariant reports == ReportsOf(pageData, pairs)
    {
      var c := pageData[index];
      match currentState {
        case SeekingOpen =>
          if c == '"' {
            openIndex := index;
            currentState := SeekingClose;
          }
        case SeekingClose =>
          if c == '"' {
            var closeIndex: nat := index;
            currentState := SeekingOpen;
            reports, pairs := CloseQuote(pageData, openIndex, closeIndex, currentLine, currentCharacter, reports, pairs);
          }
      }
      if c == '\n' {
        currentLine := currentLine + 1;
        currentCharacter := 1;
      } else {
        currentCharacter := currentCharacter + 1;
      }
    }
    ScanPairsAll(pageData);
  }

  /** One more pair adds its report, if any, at the end. */
  lemma ReportsOfSnoc(s: string, pairs: seq<(nat, nat)>, o: nat, c: nat)
    requires c < |s| && PairsWithin(pairs, c)
    ensures PairsWithin(pairs + [(o, c)], c + 1)
    ensures ReportsOf(s, pairs + [(o, c)]) == ReportsOf(s, pairs) + ReportFor(s, o, c)
  {
    assert (pairs + [(o, c)])[..|pairs|] == pairs;
  }

  /** At a closing quote: reads the attribute name before the opening quote
      and, for `href` or ` src`, records the link between the quotes at the
      current line and column. */
  method CloseQuote(pageData: string, openIndex: nat, closeIndex: nat, currentLine: nat,
                    currentCharacter: nat, reports: seq<LinkReport>, ghost pairs: seq<(nat, nat)>)
    returns (reports2: seq<LinkReport>, ghost pairs2: seq<(nat, nat)>)
    requires closeIndex < |pageData|
    requires currentLine == LineAt(pageData, closeIndex) && currentCharacter == ColAt(pageData, closeIndex)
    requires PairsWithin(pairs, closeIndex) && reports == ReportsOf(pageData, pairs)
    ensures reports2 == reports + ReportFor(pageData, openIndex, closeIndex)
    ensures pairs2 == pairs + [(openIndex, closeIndex)]
    ensures PairsWithin(pairs2, closeIndex + 1)
    ensures reports2 == ReportsOf(pageData, pairs2)
  {
    pairs2 := pairs + [(openIndex, closeIndex)];
    ReportsOfSnoc(pageData, pairs, openIndex, closeIndex);
    var attributeName := PySlice(pageData, openIndex - 5, openIndex - 1);
    var link := PySlice(pageData, openIndex + 1, closeIndex);
    reports2 := reports;
    if IsLinkAttribute(attributeName) {
      reports2 := reports2 + [LinkReport(currentLine, currentCharacter, link, IsWeb(link))];
    }
  }

  lemma {:induction false} Increasing(qs: seq<nat>, a: nat, b: nat)
    requires forall k :: 0 < k < |qs| ==> qs[k - 1] < qs[k]
    requires a < b < |qs|
    ensures qs[a] < qs[b]
    decreases b - a
  {
    if b > a + 1 {
      Increasing(qs, a, b - 1);
    }
  }

  /** Nothing strictly between two neighbours of an increasing list is in
      the list. */
  lemma BetweenNeighbours(qs: seq<nat>, a: nat, j: nat)
    requires forall k :: 0 < k < |qs| ==> qs[k - 1] < qs[k]
    requires a + 1 < |qs| && qs[a] < j < qs[a + 1]
    ensures j !in qs
  {
    if j in qs {
      var m :| 0 <= m < |qs| && qs[m] == j;
      if m < a {
        Increasing(qs, m, a);
      } else if m > a + 1 {
        Increasing(qs, a + 1, m);
      }
    }
  }

  /** Every pair is two quotes with no quote between them. */
  lemma PairsAreQuoted(s: string, k: nat)
    requires k < |PairUp(Quotes(s, |s|))|
    ensures var p := PairUp(Quotes(s, |s|))[k];
      p.0 < p.1 < |s| && s[p.0] == '"' && s[p.1] == '"' && NoChar(s[p.0 + 1..p.1], '"')
  {
    var qs := Quotes(s, |s|);
    QuotesExact(s, |s|);
    PairUpAt(qs, k);
    var o, c := qs[2 * k], qs[2 * k + 1];
    forall j | o < j < c ensures s[j] != '"' {
      BetweenNeighbours(qs, 2 * k, j);
    }
  }

  /** Every report comes from one of the pairs. */
  lemma {:induction false} ReportFromSomePair(s: string, pairs: seq<(nat, nat)>, r: LinkReport)
    requires PairsWithin(pairs, |s|)
    requires r in ReportsOf(s, pairs)
    ensures exists k :: 0 <= k < |pairs| && r in ReportFor(s, pairs[k].0, pairs[k].1)
    decreases |pairs|
  {
    assert pairs != [];
    var last := |pairs| - 1;
    var front := pairs[..last];
    if r in ReportsOf(s, front) {
      ReportFromSomePair(s, front, r);
      var k :| 0 <= k < |front| && r in ReportFor(s, front[k].0, front[k].1);
      assert pairs[k] == front[k];
    } else {
      assert r in ReportFor(s, pairs[last].0, pairs[last].1);
    }
  }

  /** A report of the page names an `href` or ` src` attribute just before
      a pair of quotes with none between them, carries the text between the
      quotes, is located at the closing quote, and is classed as web exactly
      when `IsWeb` says so. */
  lemma ReportMeans(s: string, k: nat, r: LinkReport)
    requires k < |PairUp(Quotes(s, |s|))|
    requires PairsWithin(PairUp(Quotes(s, |s|)), |s|)
    requires r in ReportFor(s, PairUp(Quotes(s, |s|))[k].0, PairUp(Quotes(s, |s|))[k].1)
    ensures var (o, c) := PairUp(Quotes(s, |s|))[k];
      o < c < |s| && s[o] == '"' && s[c] == '"' && NoChar(s[o + 1..c], '"') &&
      IsLinkAttribute(PySlice(s, o - 5, o - 1)) &&
      r == LinkReport(LineAt(s, c), ColAt(s, c), s[o + 1..c], IsWeb(s[o + 1..c]))
  {
    PairsAreQuoted(s, k);
  }
}
