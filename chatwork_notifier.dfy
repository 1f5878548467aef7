/**
  The ChatWork notifier, a Jenkins post-build step that posts a message about
  the finished build to a ChatWork room. What is modelled is the part of it
  that computes: the rendering of the configured message template
  (`generatedMessage`), the endpoint URL and the form body of the request
  (`perform`). The HTTP exchange itself is not modelled; its outcome is a
  parameter that the result does not depend on.
 */
module ChatWorkNotifier {
  import opened JavaString

  /** A culprit of the build; the renderer reads only the full name. */
  datatype User = User(fullName: string)

  /** One change-log entry: the author's name and the commit message. */
  datatype Entry = Entry(author: string, msg: string)

  /** What the renderer reads of a finished build: the string form of its
      result (SUCCESS, FAILURE, ...), the project name, the build number, the
      build's own path relative to the Jenkins root URL, the culprits and the
      change-log entries, each sequence in the order Jenkins gives it. */
  datatype Build = Build(
    result: string,
    projectName: string,
    number: nat,
    url: string,
    culprits: seq<User>,
    changeSet: seq<Entry>)

  /** The notifier's configuration, fixed when the step is configured. */
  datatype Notifier = Notifier(apiToken: string, roomId: string, message: string)

  /** The request `perform` sends: the endpoint and the request body. */
  datatype Request = Request(url: string, body: string)

  /** How the HTTP exchange ended; an I/O failure is logged and ignored. */
  datatype Delivery = Delivered | Failed(cause: string)

  datatype Option<T> = None | Some(value: T)

  const UserToken := "${user}"
  const ResultToken := "${result}"
  const ProjectToken := "${project}"
  const NumberToken := "${number}"
  const UrlToken := "${url}"
  const ChangeSetToken := "${changeSet}"

  const ApiPrefix := "https://api.chatwork.com/v1/rooms/"
  const ApiSuffix := "/messages"
  const BodyField := "body="

  // ---------------------------------------------------------------------------
  // The user string: every culprit's full name followed by one space

  function UserPart(u: User): string {
    u.fullName + " "
  }

  /** The in-order concatenation of `fullName + " "` over the culprits. */
  function UserString(culprits: seq<User>): string
    decreases |culprits|
  {
    if culprits == [] then [] else UserPart(culprits[0]) + UserString(culprits[1..])
  }

  /** The sum of the culprits' name lengths. */
  function NameLengths(culprits: seq<User>): nat
    decreases |culprits|
  {
    if culprits == [] then 0 else |culprits[0].fullName| + NameLengths(culprits[1..])
  }

  /** Joining two runs of culprits joins their user strings. */
  lemma {:induction false} UserStringConcat(a: seq<User>, b: seq<User>)
    ensures UserString(a + b) == UserString(a) + UserString(b)
    decreases |a|
  {
    if a == [] {
      assert a + b == b;
    } else {
      assert (a + b)[1..] == a[1..] + b;
      UserStringConcat(a[1..], b);
    }
  }

  /** No culprits give the empty string; one culprit gives the name and a space. */
  lemma UserStringExamples(u: User)
    ensures UserString([]) == ""
    ensures UserString([u]) == u.fullName + " "
    ensures UserString([User("Alice")]) == "Alice "
  {
    assert [u][1..] == [];
  }

  /** Each culprit adds its name and one space. */
  lemma {:induction false} UserStringLength(culprits: seq<User>)
    ensures |UserString(culprits)| == NameLengths(culprits) + |culprits|
    decreases |culprits|
  {
    if culprits != [] {
      UserStringLength(culprits[1..]);
    }
  }

  // ---------------------------------------------------------------------------
  // The change-set string: one line "author : msg" per entry

  function EntryLine(e: Entry): string {
    e.author + " : " + e.msg + "\n"
  }

  /** The in-order concatenation of `author + " : " + msg + "\n"` over the entries. */
  function ChangeSetString(entries: seq<Entry>): string
    decreases |entries|
  {
    if entries == [] then [] else EntryLine(entries[0]) + ChangeSetString(entries[1..])
  }

  /** The sum of the authors' and messages' lengths. */
  function EntryLengths(entries: seq<Entry>): nat
    decreases |entries|
  {
    if entries == [] then 0
    else |entries[0].author| + |entries[0].msg| + EntryLengths(entries[1..])
  }

  /** Joining two runs of entries joins their change-set strings. */
  lemma {:induction false} ChangeSetStringConcat(a: seq<Entry>, b: seq<Entry>)
    ensures ChangeSetString(a + b) == ChangeSetString(a) + ChangeSetString(b)
    decreases |a|
  {
    if a == [] {
      assert a + b == b;
    } else {
      assert (a + b)[1..] == a[1..] + b;
      ChangeSetStringConcat(a[1..], b);
    }
  }

  /** No entries give the empty string; one entry gives its single line. */
  lemma ChangeSetStringExamples(e: Entry)
    ensures ChangeSetString([]) == ""
    ensures ChangeSetString([e]) == e.author + " : " + e.msg + "\n"
    ensures ChangeSetString([Entry("bob", "fix bug")]) == "bob : fix bug\n"
  {
    assert [e][1..] == [];
  }

  /** Each entry adds its author, its message and the four characters " : " and "\n". */
  lemma {:induction false} ChangeSetStringLength(entries: seq<Entry>)
    ensures |ChangeSetString(entries)| == EntryLengths(entries) + 4 * |entries|
    decreases |entries|
  {
    if entries != [] {
      ChangeSetStringLength(entries[1..]);
    }
  }

  // ---------------------------------------------------------------------------
  // Rendering: six literal replace-all passes in a fixed order

  /** The six (placeholder, replacement) pairs in the order the passes run. */
  function Passes(build: Build, rootUrl: string): seq<(string, string)> {
    [ (UserToken, UserString(build.culprits)),
      (ResultToken, build.result),
      (ProjectToken, build.projectName),
      (NumberToken, ValueOf(build.number)),
      (UrlToken, rootUrl + build.url),
      (ChangeSetToken, ChangeSetString(build.changeSet)) ]
  }

  /** Runs the passes one after another, each over the previous pass's output. */
  function ApplyPasses(s: string, passes: seq<(string, string)>): string
    decreases |passes|
  {
    if passes == [] then s
    else ApplyPasses(ReplaceAll(s, passes[0].0, passes[0].1), passes[1..])
  }

  /** The message `generatedMessage` produces for a template. */
  function Render(template: string, build: Build, rootUrl: string): string {
    ApplyPasses(template, Passes(build, rootUrl))
  }

  /** Running a list of passes is running its first part, then the rest over
      that output: a pass sees the text every earlier pass produced. */
  lemma {:induction false} ApplyPassesConcat(s: string, p: seq<(string, string)>, q: seq<(string, string)>)
    ensures ApplyPasses(s, p + q) == ApplyPasses(ApplyPasses(s, p), q)
    decreases |p|
  {
    if p == [] {
      assert p + q == q;
    } else {
      assert (p + q)[1..] == p[1..] + q;
      ApplyPassesConcat(ReplaceAll(s, p[0].0, p[0].1), p[1..], q);
    }
  }

  /** Text in which no pass's placeholder occurs is left unchanged. */
  lemma {:induction false} ApplyPassesAbsent(s: string, passes: seq<(string, string)>)
    requires forall k :: 0 <= k < |passes| ==> !Contains(s, passes[k].0)
    ensures ApplyPasses(s, passes) == s
    decreases |passes|
  {
    if passes != [] {
      ReplaceAllAbsent(s, passes[0].0, passes[0].1);
      assert forall k :: 0 <= k < |passes[1..]| ==> passes[1..][k] == passes[k + 1];
      ApplyPassesAbsent(s, passes[1..]);
    }
  }

  /** A placeholder-free template renders to itself. */
  lemma RenderTokenFree(template: string, build: Build, rootUrl: string)
    requires !Contains(template, UserToken) && !Contains(template, ResultToken)
    requires !Contains(template, ProjectToken) && !Contains(template, NumberToken)
    requires !Contains(template, UrlToken) && !Contains(template, ChangeSetToken)
    ensures Render(template, build, rootUrl) == template
  {
    var passes := Passes(build, rootUrl);
    forall k | 0 <= k < |passes| ensures !Contains(template, passes[k].0) {
    }
    ApplyPassesAbsent(template, passes);
  }

  /** Text without a '$' is left unchanged by any run of the passes. */
  lemma NoDollarUnchanged(s: string, passes: seq<(string, string)>)
    requires '$' !in s
    requires forall k :: 0 <= k < |passes| ==> passes[k].0 != [] && passes[k].0[0] == '$'
    ensures ApplyPasses(s, passes) == s
  {
    forall k | 0 <= k < |passes| ensures !Contains(s, passes[k].0) {
      AbsentLead(s, passes[k].0);
    }
    ApplyPassesAbsent(s, passes);
  }

  /** The placeholders are told apart: none occurs inside a placeholder
      whose pass comes later. */
  lemma ResultTokenDistinct()
    ensures !Contains(ResultToken, UserToken)
  {
    AbsentByLead(ResultToken, UserToken, 2);
  }

  lemma ProjectTokenDistinct()
    ensures !Contains(ProjectToken, UserToken) && !Contains(ProjectToken, ResultToken)
  {
    AbsentByLead(ProjectToken, UserToken, 2);
    AbsentByLead(ProjectToken, ResultToken, 2);
  }

  lemma NumberTokenDistinct()
    ensures !Contains(NumberToken, UserToken) && !Contains(NumberToken, ResultToken)
    ensures !Contains(NumberToken, ProjectToken)
  {
    AbsentByLead(NumberToken, UserToken, 2);
    AbsentByLead(NumberToken, ResultToken, 2);
    AbsentByLead(NumberToken, ProjectToken, 2);
  }

  lemma UrlTokenDistinct()
    ensures !Contains(UrlToken, UserToken) && !Contains(UrlToken, ResultToken)
    ensures !Contains(UrlToken, ProjectToken) && !Contains(UrlToken, NumberToken)
  {
    AbsentByLead(UrlToken, UserToken, 3);
    AbsentByLead(UrlToken, ResultToken, 2);
    AbsentByLead(UrlToken, ProjectToken, 2);
    AbsentByLead(UrlToken, NumberToken, 2);
  }

  lemma ChangeSetTokenDistinct()
    ensures !Contains(ChangeSetToken, UserToken) && !Contains(ChangeSetToken, ResultToken)
    ensures !Contains(ChangeSetToken, ProjectToken) && !Contains(ChangeSetToken, NumberToken)
    ensures !Contains(ChangeSetToken, UrlToken)
  {
    AbsentByLead(ChangeSetToken, UserToken, 2);
    AbsentByLead(ChangeSetToken, ResultToken, 2);
    AbsentByLead(ChangeSetToken, ProjectToken, 2);
    AbsentByLead(ChangeSetToken, NumberToken, 2);
    AbsentByLead(ChangeSetToken, UrlToken, 2);
  }

  /** The passes before position k leave text holding none of their
      placeholders unchanged. */
  lemma PassesBeforeAbsent(s: string, passes: seq<(string, string)>, k: nat)
    requires k <= |passes|
    requires forall j :: 0 <= j < k ==> !Contains(s, passes[j].0)
    ensures ApplyPasses(s, passes[..k]) == s
  {
    var before := passes[..k];
    forall j | 0 <= j < |before| ensures !Contains(s, before[j].0) {
    }
    ApplyPassesAbsent(s, before);
  }

  /** The passes from position k on leave text holding none of their
      placeholders unchanged. */
  lemma PassesFromAbsent(s: string, passes: seq<(string, string)>, k: nat)
    requires k <= |passes|
    requires forall j :: k <= j < |passes| ==> !Contains(s, passes[j].0)
    ensures ApplyPasses(s, passes[k..]) == s
  {
    var after := passes[k..];
    forall j | 0 <= j < |after| ensures !Contains(s, after[j].0) {
      assert after[j] == passes[k + j];
    }
    ApplyPassesAbsent(s, after);
  }

  /** Running the passes from position k on is running pass k, then the
      passes after it. */
  lemma ApplyPassesFrom(s: string, passes: seq<(string, string)>, k: nat)
    requires k < |passes|
    ensures ApplyPasses(s, passes[k..])
      == ApplyPasses(ReplaceAll(s, passes[k].0, passes[k].1), passes[k + 1..])
  {
    assert passes[k..][1..] == passes[k + 1..];
  }

  /** Running all passes is running those before position k, then the rest. */
  lemma ApplyPassesSplit(s: string, passes: seq<(string, string)>, k: nat)
    requires k <= |passes|
    ensures ApplyPasses(s, passes) == ApplyPasses(ApplyPasses(s, passes[..k]), passes[k..])
  {
    assert passes == passes[..k] + passes[k..];
    ApplyPassesConcat(s, passes[..k], passes[k..]);
  }

  /** A template that is just the k-th placeholder renders to the k-th
      replacement, provided no earlier placeholder occurs in it and no later
      placeholder occurs in the replacement. */
  lemma ApplyPassesSingle(passes: seq<(string, string)>, k: nat)
    requires k < |passes| && passes[k].0 != []
    requires forall j :: 0 <= j < k ==> !Contains(passes[k].0, passes[j].0)
    requires forall j :: k < j < |passes| ==> !Contains(passes[k].1, passes[j].0)
    ensures ApplyPasses(passes[k].0, passes) == passes[k].1
  {
    var token, value := passes[k].0, passes[k].1;
    ApplyPassesSplit(token, passes, k);
    PassesBeforeAbsent(token, passes, k);
    ApplyPassesFrom(token, passes, k);
    ReplaceAllWhole(token, value);
    PassesFromAbsent(value, passes, k + 1);
  }

  /** `${user}` becomes the user string, unless a culprit's name holds a
      later placeholder, which the later passes expand. */
  lemma RenderUserToken(build: Build, rootUrl: string)
    requires !Contains(UserString(build.culprits), ResultToken)
    requires !Contains(UserString(build.culprits), ProjectToken)
    requires !Contains(UserString(build.culprits), NumberToken)
    requires !Contains(UserString(build.culprits), UrlToken)
    requires !Contains(UserString(build.culprits), ChangeSetToken)
    ensures Render(UserToken, build, rootUrl) == UserString(build.culprits)
  {
    var passes := Passes(build, rootUrl);
    forall j | 0 < j < 6 ensures !Contains(passes[0].1, passes[j].0) {
    }
    ApplyPassesSingle(passes, 0);
  }

  /** `${result}` becomes the result's string form, unless it holds a later
      placeholder. */
  lemma RenderResultToken(build: Build, rootUrl: string)
    requires !Contains(build.result, ProjectToken) && !Contains(build.result, NumberToken)
    requires !Contains(build.result, UrlToken) && !Contains(build.result, ChangeSetToken)
    ensures Render(ResultToken, build, rootUrl) == build.result
  {
    ResultTokenDistinct();
    var passes := Passes(build, rootUrl);
    forall j | 0 <= j < 1 ensures !Contains(passes[1].0, passes[j].0) {
    }
    forall j | 1 < j < 6 ensures !Contains(passes[1].1, passes[j].0) {
    }
    ApplyPassesSingle(passes, 1);
  }

  /** `${project}` becomes the project name, unless it holds a later
      placeholder. */
  lemma RenderProjectToken(build: Build, rootUrl: string)
    requires !Contains(build.projectName, NumberToken) && !Contains(build.projectName, UrlToken)
    requires !Contains(build.projectName, ChangeSetToken)
    ensures Render(ProjectToken, build, rootUrl) == build.projectName
  {
    ProjectTokenDistinct();
    var passes := Passes(build, rootUrl);
    forall j | 0 <= j < 2 ensures !Contains(passes[2].0, passes[j].0) {
    }
    forall j | 2 < j < 6 ensures !Contains(passes[2].1, passes[j].0) {
    }
    ApplyPassesSingle(passes, 2);
  }

  /** `${changeSet}` becomes the change-set string verbatim: its pass is the
      last, so a placeholder inside a commit message (a `${user}`, say) is
      never expanded. */
  lemma RenderChangeSetToken(build: Build, rootUrl: string)
    ensures Render(ChangeSetToken, build, rootUrl) == ChangeSetString(build.changeSet)
  {
    ChangeSetTokenDistinct();
    var passes := Passes(build, rootUrl);
    forall j | 0 <= j < 5 ensures !Contains(passes[5].0, passes[j].0) {
    }
    ApplyPassesSingle(passes, 5);
  }

  /** `${number}` becomes the decimal rendering of the build number. */
  lemma RenderNumberToken(build: Build, rootUrl: string)
    ensures Render(NumberToken, build, rootUrl) == ValueOf(build.number)
  {
    NumberTokenDistinct();
    ValueOfHasNoDollar(build.number);
    var passes := Passes(build, rootUrl);
    forall j | 0 <= j < 3 ensures !Contains(passes[3].0, passes[j].0) {
    }
    forall j | 3 < j < 6 ensures !Contains(passes[3].1, passes[j].0) {
      AbsentLead(passes[3].1, passes[j].0);
    }
    ApplyPassesSingle(passes, 3);
  }

  /** `${url}` becomes the root URL immediately followed by the build's path,
      unless that text itself holds `${changeSet}`, which the last pass expands. */
  lemma RenderUrlToken(build: Build, rootUrl: string)
    requires !Contains(rootUrl + build.url, ChangeSetToken)
    ensures Render(UrlToken, build, rootUrl) == rootUrl + build.url
  {
    UrlTokenDistinct();
    var passes := Passes(build, rootUrl);
    forall j | 0 <= j < 4 ensures !Contains(passes[4].0, passes[j].0) {
    }
    ApplyPassesSingle(passes, 4);
  }

  /** Text produced by one pass is rescanned by the later passes: a culprit
      whose full name is `${project}` shows up as the project name. */
  lemma RenderRescansCulpritName(build: Build, rootUrl: string)
    requires build.culprits == [User(ProjectToken)]
    requires '$' !in build.projectName
    ensures Render(UserToken, build, rootUrl) == build.projectName + " "
  {
    var passes := Passes(build, rootUrl);
    var name := build.projectName;
    var afterUser := ProjectToken + " ";
    UserStringExamples(User(ProjectToken));
    ReplaceAllWhole(UserToken, afterUser);
    AbsentByLead(afterUser, ResultToken, 2);
    ReplaceAllAbsent(afterUser, ResultToken, build.result);
    assert afterUser[..|ProjectToken|] == ProjectToken;
    assert afterUser[|ProjectToken|..] == " ";
    AbsentLead(" ", ProjectToken);
    ReplaceAllAbsent(" ", ProjectToken, name);
    assert ReplaceAll(afterUser, ProjectToken, name) == name + " ";
    NoDollarUnchanged(name + " ", passes[3..]);
    calc {
      Render(UserToken, build, rootUrl);
      ApplyPasses(afterUser, passes[1..]);
      ApplyPasses(afterUser, passes[2..]);
      ApplyPasses(name + " ", passes[3..]);
      name + " ";
    }
  }

  /** The six passes spelled out: rendering is the composition of six
      replace-all passes in the order user, result, project, number, url,
      changeSet. */
  lemma RenderUnfolded(template: string, build: Build, rootUrl: string)
    ensures Render(template, build, rootUrl)
      == ReplaceAll(ReplaceAll(ReplaceAll(ReplaceAll(ReplaceAll(ReplaceAll(
           template, UserToken, UserString(build.culprits)),
           ResultToken, build.result),
           ProjectToken, build.projectName),
           NumberToken, ValueOf(build.number)),
           UrlToken, rootUrl + build.url),
           ChangeSetToken, ChangeSetString(build.changeSet))
  {
    var passes := Passes(build, rootUrl);
    var s1 := ReplaceAll(template, UserToken, UserString(build.culprits));
    var s2 := ReplaceAll(s1, ResultToken, build.result);
    var s3 := ReplaceAll(s2, ProjectToken, build.projectName);
    var s4 := ReplaceAll(s3, NumberToken, ValueOf(build.number));
    var s5 := ReplaceAll(s4, UrlToken, rootUrl + build.url);
    var s6 := ReplaceAll(s5, ChangeSetToken, ChangeSetString(build.changeSet));
    calc {
      Render(template, build, rootUrl);
      ApplyPasses(s1, passes[1..]);
      ApplyPasses(s2, passes[2..]);
      ApplyPasses(s3, passes[3..]);
      ApplyPasses(s4, passes[4..]);
      ApplyPasses(s5, passes[5..]);
      ApplyPasses(s6, passes[6..]);
      s6;
    }
  }

  // ---------------------------------------------------------------------------
  // Templates read as literal text and placeholders

  /** A piece of a template: literal text, or the placeholder of the pass at
      index `pass`. */
  datatype Piece = Text(text: string) | Slot(pass: nat)

  /** The text a piece stands for once the first `done` passes have run: a
      slot whose pass has run holds that pass's replacement, any other slot
      its placeholder (a slot naming no pass stands for no text). */
  function PieceText(p: Piece, passes: seq<(string, string)>, done: nat): string {
    match p
    case Text(s) => s
    case Slot(k) =>
      if k >= |passes| then []
      else if k < done then passes[k].1
      else passes[k].0
  }

  /** The pieces' texts in order: with `done == 0` the template, with
      `done == |passes|` the message it is meant to render to. */
  function Fill(pieces: seq<Piece>, passes: seq<(string, string)>, done: nat): string
    decreases |pieces|
  {
    if pieces == [] then []
    else PieceText(pieces[0], passes, done) + Fill(pieces[1..], passes, done)
  }

  /** A placeholder in the plugin's style: a '$' that does not come back. */
  predicate IsPlaceholder(t: string) {
    t != [] && t[0] == '$' && '$' !in t[1..]
  }

  /** The placeholders of the passes can be told apart by a left-to-right
      scan: none is a prefix of another. */
  predicate Separable(passes: seq<(string, string)>) {
    && (forall i :: 0 <= i < |passes| ==> IsPlaceholder(passes[i].0))
    && (forall i, j :: 0 <= i < |passes| && 0 <= j < |passes| && i != j ==>
          !StartsWith(passes[i].0, passes[j].0))
  }

  /** The replacements of the first `done` passes hold no '$'. */
  predicate PlainUpTo(passes: seq<(string, string)>, done: nat) {
    forall k :: 0 <= k < done && k < |passes| ==> '$' !in passes[k].1
  }

  /** The literal text of a template holds no '$'. */
  predicate PlainLiterals(pieces: seq<Piece>) {
    forall i :: 0 <= i < |pieces| && pieces[i].Text? ==> '$' !in pieces[i].text
  }

  /** One pass turns exactly the slots of that pass into its replacement and
      copies all other text, when the text so far holds no '$' except at the
      front of a placeholder. */
  lemma {:induction false} ReplaceAllFill(pieces: seq<Piece>, passes: seq<(string, string)>, done: nat)
    requires done < |passes| && Separable(passes) && PlainUpTo(passes, done)
    requires PlainLiterals(pieces)
    ensures ReplaceAll(Fill(pieces, passes, done), passes[done].0, passes[done].1)
      == Fill(pieces, passes, done + 1)
    decreases |pieces|
  {
    if pieces != [] {
      var t, r := passes[done].0, passes[done].1;
      var rest := Fill(pieces[1..], passes, done);
      assert PlainLiterals(pieces[1..]) by {
        forall i | 0 <= i < |pieces[1..]| ensures pieces[1..][i] == pieces[i + 1] {
        }
      }
      ReplaceAllFill(pieces[1..], passes, done);
      ReplaceAllPiece(pieces[0], rest, passes, done);
    }
  }

  /** One pass over a single piece followed by any text. */
  lemma ReplaceAllPiece(p: Piece, rest: string, passes: seq<(string, string)>, done: nat)
    requires done < |passes| && Separable(passes) && PlainUpTo(passes, done)
    requires p.Text? ==> '$' !in p.text
    ensures ReplaceAll(PieceText(p, passes, done) + rest, passes[done].0, passes[done].1)
      == PieceText(p, passes, done + 1) + ReplaceAll(rest, passes[done].0, passes[done].1)
  {
    var t, r := passes[done].0, passes[done].1;
    assert IsPlaceholder(t);
    match p
    case Text(s) =>
      ReplaceAllPastLiteral(s, rest, t, r);
    case Slot(k) =>
      if k >= |passes| {
        assert [] + rest == rest;
      } else if k < done {
        ReplaceAllPastLiteral(passes[k].1, rest, t, r);
      } else if k == done {
        ReplaceAllAtTarget(rest, t, r);
      } else {
        assert IsPlaceholder(passes[k].0);
        ReplaceAllPastOther(passes[k].0, rest, t, r);
      }
  }

  /** The passes from `done` on complete the filling of every slot. The last
      pass's replacement may hold anything: no later pass reads it. */
  lemma {:induction false} ApplyPassesFill(pieces: seq<Piece>, passes: seq<(string, string)>, done: nat)
    requires done <= |passes| && Separable(passes)
    requires forall k :: 0 <= k < |passes| - 1 ==> '$' !in passes[k].1
    requires PlainLiterals(pieces)
    ensures ApplyPasses(Fill(pieces, passes, done), passes[done..]) == Fill(pieces, passes, |passes|)
    decreases |passes| - done
  {
    if done == |passes| {
      assert passes[done..] == [];
    } else {
      ApplyPassesFrom(Fill(pieces, passes, done), passes, done);
      assert PlainUpTo(passes, done);
      ReplaceAllFill(pieces, passes, done);
      ApplyPassesFill(pieces, passes, done + 1);
    }
  }

  /** Everything `generatedMessage` substitutes before the last pass holds no
      '$'; the change-set string, substituted last, may hold anything. */
  predicate PlainBuild(build: Build, rootUrl: string) {
    && '$' !in UserString(build.culprits)
    && '$' !in build.result
    && '$' !in build.projectName
    && '$' !in rootUrl + build.url
  }

  /** The six placeholders can be told apart, and with a plain build none of
      the first five replacements holds a '$'. */
  lemma PassesSeparable(build: Build, rootUrl: string)
    ensures Separable(Passes(build, rootUrl))
    ensures PlainBuild(build, rootUrl) ==> PlainUpTo(Passes(build, rootUrl), 5)
  {
    var passes := Passes(build, rootUrl);
    forall i | 0 <= i < 6 ensures IsPlaceholder(passes[i].0) {
      PassTokensApart(build, rootUrl, i, (i + 1) % 6);
    }
    forall i, j | 0 <= i < 6 && 0 <= j < 6 && i != j
      ensures !StartsWith(passes[i].0, passes[j].0)
    {
      PassTokensApart(build, rootUrl, i, j);
    }
    ValueOfHasNoDollar(build.number);
  }

  /** Neither of two strings that differ at a position both have is a prefix
      of the other. */
  lemma Apart(u: string, t: string, k: nat)
    requires k < |u| && k < |t| && u[k] != t[k]
    ensures !StartsWith(u, t) && !StartsWith(t, u)
  {
    DiffersAt(u, t, k);
    DiffersAt(t, u, k);
  }

  /** No placeholder is a prefix of another: they differ right after "${",
      except `${user}` and `${url}`, which differ one character later. */
  lemma UserTokenApart()
    ensures IsPlaceholder(UserToken)
    ensures !StartsWith(UserToken, ResultToken) && !StartsWith(ResultToken, UserToken)
    ensures !StartsWith(UserToken, ProjectToken) && !StartsWith(ProjectToken, UserToken)
    ensures !StartsWith(UserToken, NumberToken) && !StartsWith(NumberToken, UserToken)
    ensures !StartsWith(UserToken, UrlToken) && !StartsWith(UrlToken, UserToken)
    ensures !StartsWith(UserToken, ChangeSetToken) && !StartsWith(ChangeSetToken, UserToken)
  {
    Apart(UserToken, ResultToken, 2);
    Apart(UserToken, ProjectToken, 2);
    Apart(UserToken, NumberToken, 2);
    Apart(UserToken, UrlToken, 3);
    Apart(UserToken, ChangeSetToken, 2);
  }

  lemma ResultTokenApart()
    ensures IsPlaceholder(ResultToken)
    ensures !StartsWith(ResultToken, ProjectToken) && !StartsWith(ProjectToken, ResultToken)
    ensures !StartsWith(ResultToken, NumberToken) && !StartsWith(NumberToken, ResultToken)
    ensures !StartsWith(ResultToken, UrlToken) && !StartsWith(UrlToken, ResultToken)
    ensures !StartsWith(ResultToken, ChangeSetToken) && !StartsWith(ChangeSetToken, ResultToken)
  {
    Apart(ResultToken, ProjectToken, 2);
    Apart(ResultToken, NumberToken, 2);
    Apart(ResultToken, UrlToken, 2);
    Apart(ResultToken, ChangeSetToken, 2);
  }

  lemma ProjectTokenApart()
    ensures IsPlaceholder(ProjectToken)
    ensures !StartsWith(ProjectToken, NumberToken) && !StartsWith(NumberToken, ProjectToken)
    ensures !StartsWith(ProjectToken, UrlToken) && !StartsWith(UrlToken, ProjectToken)
    ensures !StartsWith(ProjectToken, ChangeSetToken) && !StartsWith(ChangeSetToken, ProjectToken)
  {
    Apart(ProjectToken, NumberToken, 2);
    Apart(ProjectToken, UrlToken, 2);
    Apart(ProjectToken, ChangeSetToken, 2);
  }

  lemma NumberUrlChangeSetApart()
    ensures IsPlaceholder(NumberToken) && IsPlaceholder(UrlToken) && IsPlaceholder(ChangeSetToken)
    ensures !StartsWith(NumberToken, UrlToken) && !StartsWith(UrlToken, NumberToken)
    ensures !StartsWith(NumberToken, ChangeSetToken) && !StartsWith(ChangeSetToken, NumberToken)
    ensures !StartsWith(UrlToken, ChangeSetToken) && !StartsWith(ChangeSetToken, UrlToken)
  {
    Apart(NumberToken, UrlToken, 2);
    Apart(NumberToken, ChangeSetToken, 2);
    Apart(UrlToken, ChangeSetToken, 2);
  }

  /** The placeholders of passes `i` and `j` are not prefixes of each other. */
  lemma PassTokensApart(build: Build, rootUrl: string, i: nat, j: nat)
    requires i < 6 && j < 6 && i != j
    ensures IsPlaceholder(Passes(build, rootUrl)[i].0)
    ensures !StartsWith(Passes(build, rootUrl)[i].0, Passes(build, rootUrl)[j].0)
  {
    var lo, hi := if i < j then i else j, if i < j then j else i;
    if lo == 0 {
      UserTokenApart();
    } else if lo == 1 {
      ResultTokenApart();
    } else if lo == 2 {
      ProjectTokenApart();
    } else {
      NumberUrlChangeSetApart();
    }
    if i == 0 {
      UserTokenApart();
    } else if i == 1 {
      ResultTokenApart();
    } else if i == 2 {
      ProjectTokenApart();
    } else {
      NumberUrlChangeSetApart();
    }
  }

  /** A template of '$'-free literal text and placeholders renders to the
      same text with every placeholder replaced by its value, as long as no
      value but the change-set string holds a '$' (otherwise a later pass may
      match across pieces). */
  lemma RenderFill(pieces: seq<Piece>, build: Build, rootUrl: string)
    requires PlainLiterals(pieces) && PlainBuild(build, rootUrl)
    ensures Render(Fill(pieces, Passes(build, rootUrl), 0), build, rootUrl)
      == Fill(pieces, Passes(build, rootUrl), 6)
  {
    var passes := Passes(build, rootUrl);
    PassesSeparable(build, rootUrl);
    ApplyPassesFill(pieces, passes, 0);
    assert passes[0..] == passes;
  }

  /** The template "Build ${project} #${number}: ${result} (${url})" read as
      pieces. */
  const ExamplePieces := [Text("Build "), Slot(2), Text(" #"), Slot(3), Text(": "),
                          Slot(1), Text(" ("), Slot(4), Text(")")]

  /** A build of project demo, number 42, that succeeded. */
  const ExampleBuild := Build("SUCCESS", "demo", 42, "job/demo/42/", [], [])

  /** The example pieces stand for their texts in order. */
  lemma ExampleFill(passes: seq<(string, string)>, done: nat)
    ensures Fill(ExamplePieces, passes, done)
      == "Build " + (PieceText(Slot(2), passes, done) + (" #" + (PieceText(Slot(3), passes, done)
         + (": " + (PieceText(Slot(1), passes, done) + (" (" + (PieceText(Slot(4), passes, done) + ")")))))))
  {
  }

  /** Neither the example's literal text nor its values hold a '$'; the
      build number renders as "42". */
  lemma ExamplePlain()
    ensures PlainLiterals(ExamplePieces) && PlainBuild(ExampleBuild, "http://ci/")
    ensures ValueOf(ExampleBuild.number) == "42"
  {
    assert ValueOf(42) == ValueOf(4) + [DigitChar(2)];
  }

  /** Literal text does not always come through: a project name "${"
      followed by the literal "url}" spells `${url}` after the project pass,
      and the url pass then expands it. */
  lemma RenderSplicesProjectName(build: Build, rootUrl: string)
    requires build.projectName == "${"
    requires '$' !in UserString(build.culprits) && '$' !in build.result
    requires '$' !in rootUrl + build.url
    ensures Render(ProjectToken + "url}", build, rootUrl) == rootUrl + build.url
  {
    var passes := Passes(build, rootUrl);
    var template := ProjectToken + "url}";
    var afterUser := ReplaceAll(template, UserToken, UserString(build.culprits));
    assert afterUser == template && ReplaceAll(afterUser, ResultToken, build.result) == template by {
      FirstPassesKeepProject(build, rootUrl);
    }
    var spliced := ReplaceAll(template, ProjectToken, build.projectName);
    assert spliced == UrlToken by {
      ReplaceAllAtTarget("url}", ProjectToken, build.projectName);
      assert "url}" == "url}" + [];
      ReplaceAllPastLiteral("url}", [], ProjectToken, build.projectName);
    }
    ApplyPassesFrom(template, passes, 0);
    ApplyPassesFrom(ReplaceAll(template, UserToken, UserString(build.culprits)), passes, 1);
    ApplyPassesFrom(template, passes, 2);
    assert passes[0..] == passes;
    UrlTokenAfterProject(build, rootUrl);
  }

  /** The user and result passes leave `${project}url}` alone. */
  lemma FirstPassesKeepProject(build: Build, rootUrl: string)
    requires '$' !in UserString(build.culprits) && '$' !in build.result
    ensures ReplaceAll(ProjectToken + "url}", UserToken, UserString(build.culprits)) == ProjectToken + "url}"
    ensures ReplaceAll(ProjectToken + "url}", ResultToken, build.result) == ProjectToken + "url}"
  {
    var passes := Passes(build, rootUrl);
    var pieces := [Slot(2), Text("url}")];
    assert Fill(pieces, passes, 0) == ProjectToken + "url}" by {
      assert Fill(pieces[1..], passes, 0) == "url}" + [];
    }
    assert Fill(pieces, passes, 1) == ProjectToken + "url}" by {
      assert Fill(pieces[1..], passes, 1) == "url}" + [];
    }
    assert Fill(pieces, passes, 2) == ProjectToken + "url}" by {
      assert Fill(pieces[1..], passes, 2) == "url}" + [];
    }
    PassesSeparable(build, rootUrl);
    ReplaceAllFill(pieces, passes, 0);
    ReplaceAllFill(pieces, passes, 1);
  }

  /** The passes after the project pass turn `${url}` into its value. */
  lemma UrlTokenAfterProject(build: Build, rootUrl: string)
    requires '$' !in rootUrl + build.url
    ensures ApplyPasses(UrlToken, Passes(build, rootUrl)[3..]) == rootUrl + build.url
  {
    var passes := Passes(build, rootUrl);
    AbsentLead(rootUrl + build.url, ChangeSetToken);
    RenderUrlToken(build, rootUrl);
    UrlTokenDistinct();
    PassesBeforeAbsent(UrlToken, passes, 3);
    ApplyPassesSplit(UrlToken, passes, 3);
  }

  /** A worked example: "Build ${project} #${number}: ${result}
      (${url})" for project demo, build 42, result SUCCESS, root URL
      http://ci/ and build path job/demo/42/ renders to "Build demo #42:
      SUCCESS (http://ci/job/demo/42/)". */
  lemma RenderExample()
    ensures Render("Build " + (ProjectToken + (" #" + (NumberToken + (": " + (ResultToken + (" (" + (UrlToken + ")"))))))),
                   ExampleBuild, "http://ci/")
      == "Build " + ("demo" + (" #" + ("42" + (": " + ("SUCCESS" + (" (" + (("http://ci/" + "job/demo/42/") + ")")))))))
  {
    var build, rootUrl := ExampleBuild, "http://ci/";
    var passes := Passes(build, rootUrl);
    ExamplePlain();
    RenderFill(ExamplePieces, build, rootUrl);
    ExampleFill(passes, 0);
    ExampleFill(passes, 6);
  }

  // ---------------------------------------------------------------------------
  // generatedMessage

  /** Builds the user and change-set strings with two loops, then runs the six
      replace passes over the configured template. */
  method GeneratedMessage(notifier: Notifier, build: Build, rootUrl: string)
    returns (replacedMessage: string)
    ensures replacedMessage == Render(notifier.message, build, rootUrl)
  {
    var userBuilder := "";
    for i := 0 to |build.culprits|
      invariant userBuilder == UserString(build.culprits[..i])
    {
      assert build.culprits[..i + 1] == build.culprits[..i] + [build.culprits[i]];
      UserStringConcat(build.culprits[..i], [build.culprits[i]]);
      UserStringExamples(build.culprits[i]);
      userBuilder := userBuilder + (build.culprits[i].fullName + " ");
    }
    assert build.culprits[..|build.culprits|] == build.culprits;

    var changeSetBuilder := "";
    for i := 0 to |build.changeSet|
      invariant changeSetBuilder == ChangeSetString(build.changeSet[..i])
    {
      var entry := build.changeSet[i];
      assert build.changeSet[..i + 1] == build.changeSet[..i] + [entry];
      ChangeSetStringConcat(build.changeSet[..i], [entry]);
      ChangeSetStringExamples(entry);
      changeSetBuilder := changeSetBuilder + (entry.author + " : " + entry.msg + "\n");
    }
    assert build.changeSet[..|build.changeSet|] == build.changeSet;

    replacedMessage := ReplaceAll(notifier.message, UserToken, userBuilder);
    replacedMessage := ReplaceAll(replacedMessage, ResultToken, build.result);
    replacedMessage := ReplaceAll(replacedMessage, ProjectToken, build.projectName);
    replacedMessage := ReplaceAll(replacedMessage, NumberToken, ValueOf(build.number));
    replacedMessage := ReplaceAll(replacedMessage, UrlToken, rootUrl + build.url);
    replacedMessage := ReplaceAll(replacedMessage, ChangeSetToken, changeSetBuilder);
    RenderUnfolded(notifier.message, build, rootUrl);
  }

  // ---------------------------------------------------------------------------
  // The request built in perform

  /** The message-creation endpoint of room `roomId`. */
  function ApiUrl(roomId: string): (url: string)
    ensures StartsWith(url, ApiPrefix)
    ensures |url| == |ApiPrefix| + |roomId| + |ApiSuffix|
    ensures url[|ApiPrefix|..|ApiPrefix| + |roomId|] == roomId
    ensures url[|ApiPrefix| + |roomId|..] == ApiSuffix
  {
    ApiPrefix + roomId + ApiSuffix
  }

  /** Reads the room identifier back out of an endpoint URL. */
  function RoomIdOf(url: string): Option<string> {
    if |url| >= |ApiPrefix| + |ApiSuffix| && StartsWith(url, ApiPrefix)
       && url[|url| - |ApiSuffix|..] == ApiSuffix
    then Some(url[|ApiPrefix|..|url| - |ApiSuffix|])
    else None
  }

  /** The endpoint determines the room, and only endpoint-shaped URLs name one. */
  lemma RoomIdOfApiUrl(roomId: string, url: string)
    ensures RoomIdOf(ApiUrl(roomId)) == Some(roomId)
    ensures RoomIdOf(url) == Some(roomId) ==> url == ApiUrl(roomId)
  {
    if RoomIdOf(url) == Some(roomId) {
      assert url == url[..|ApiPrefix|] + url[|ApiPrefix|..|url| - |ApiSuffix|] + url[|url| - |ApiSuffix|..];
    }
  }

  /** The request body: the single form field `body` holding the encoded
      message. The URL encoder is a parameter. */
  function PostData(message: string, encode: string -> string): (data: string)
    ensures StartsWith(data, BodyField)
    ensures data[|BodyField|..] == encode(message)
  {
    BodyField + encode(message)
  }

  /** Reads the encoded message back out of a request body. */
  function BodyOf(data: string): Option<string> {
    if StartsWith(data, BodyField) then Some(data[|BodyField|..]) else None
  }

  /** The body holds exactly the encoded message, and any body that starts
      with the field name is the post data of what follows it. */
  lemma BodyOfPostData(message: string, encode: string -> string, data: string)
    ensures BodyOf(PostData(message, encode)) == Some(encode(message))
    ensures BodyOf(data) == Some(encode(message)) ==> data == PostData(message, encode)
  {
    if BodyOf(data) == Some(encode(message)) {
      assert data == data[..|BodyField|] + data[|BodyField|..];
    }
  }

  /** `perform`: renders the message, builds the request and, whatever the
      delivery did, lets the build proceed. */
  method Perform(notifier: Notifier, build: Build, rootUrl: string,
                 encode: string -> string, delivery: Delivery)
    returns (request: Request, proceed: bool)
    ensures request.url == ApiUrl(notifier.roomId)
    ensures request.body == PostData(Render(notifier.message, build, rootUrl), encode)
    ensures proceed
  {
    var apiUrl := ApiPrefix + notifier.roomId + ApiSuffix;
    var message := GeneratedMessage(notifier, build, rootUrl);
    var postData := BodyField + encode(message);
    request := Request(apiUrl, postData);
    proceed := true;
  }
}
