# ChatWork build notifier: the message renderer and the request it builds

The ChatWork plugin for Jenkins is a post-build step. When a build finishes it
renders a user-configured message template and posts the result to a ChatWork
room. This project models the part of the step that computes:

- `generatedMessage` builds two strings from the finished build. The user
  string is every culprit's full name followed by one space. The change-set
  string has one line `author : msg` per change-log entry. It then runs six
  literal replace-all passes over the template in a fixed order: `${user}`,
  `${result}`, `${project}`, `${number}`, `${url}`, `${changeSet}`.
- `perform` builds the endpoint URL
  `https://api.chatwork.com/v1/rooms/<roomId>/messages` and the request body
  `body=<URL-encoded message>`, and always returns `true`.

Files:

- `java_string.dfy` (module `JavaString`) holds the Java library behaviour the
  renderer relies on. `ReplaceAll` is `String.replace(CharSequence,
  CharSequence)`: a literal, left-to-right scan whose matches never overlap.
  It also covers the empty-target case, counted in Unicode scalar values
  rather than Java's UTF-16 code units (see "## Left out"). `IndexOf` is
  `String.indexOf`, and `ValueOf` is `String.valueOf` on a non-negative
  build number.
- `chatwork_notifier.dfy` (module `ChatWorkNotifier`) holds the build and
  configuration values, the two builder strings, the pass list and `Render`,
  the method `GeneratedMessage` with the source's two loops and six
  reassignments, and the request construction in `ApiUrl`, `PostData` and
  `Perform`.

The Jenkins objects are plain values. The build's result is its string form.
The build number is a `nat`. Culprits are a sequence of `User` (full name
only), and change entries are a sequence of `Entry(author, msg)`. The Jenkins
root URL, which the source reads from global configuration, is the parameter
`rootUrl`. The URL encoder is the function parameter `encode`.

Because the passes run in sequence, their order matters and every later pass
rescans replacement text. So text that an earlier pass inserts is expanded
by every later pass. `RenderRescansCulpritName` shows a culprit named
`${project}` coming out as the project name. `RenderChangeSetToken` shows the
other side: the last pass's text is never rescanned, so a `${user}` inside a
commit message survives. Literal template text can be affected too.
`RenderSplicesProjectName` shows a project name `${` joining the literal
`url}` that follows it into `${url}`, which the url pass then expands.

For ordinary templates, `RenderFill` states the expected result. A template
is read as a sequence of pieces (`Piece`): literal text, or one of the six
placeholders. When the literal text holds no `$`, and no substituted value
except the change-set string holds one, the message is the same sequence with
every placeholder replaced by its value. `RenderExample` applies this to the template `Build ${project}
#${number}: ${result} (${url})`.

## Model

| member | source | states |
|---|---|---|
| JavaString.ReplaceAll | src/main/java/org/jenkinsci/plugins/chatwork/ChatWorkNotifier.java:131-136 | defines `String.replace` on a non-empty target: at each position, the target is replaced and skipped if it starts there, otherwise one character is copied; an empty target puts the replacement before every character and at the end |
| JavaString.ReplaceAllPastLiteral | src/main/java/org/jenkinsci/plugins/chatwork/ChatWorkNotifier.java:131-136 | text that does not hold the target's first character is copied unchanged, and the scan carries on with what follows |
| JavaString.ReplaceAllAtTarget | src/main/java/org/jenkinsci/plugins/chatwork/ChatWorkNotifier.java:131-136 | the target at the front is replaced, and the scan resumes right after it |
| JavaString.ReplaceAllPastOther | src/main/java/org/jenkinsci/plugins/chatwork/ChatWorkNotifier.java:131-136 | another placeholder is copied whole when its leading character does not recur and neither placeholder is a prefix of the other |
| JavaString.ReplaceAllAbsent | src/main/java/org/jenkinsci/plugins/chatwork/ChatWorkNotifier.java:131-136 | a replace pass leaves a string in which its target does not occur unchanged |
| JavaString.MatchCountZeroIff | src/main/java/org/jenkinsci/plugins/chatwork/ChatWorkNotifier.java:131 | the scan matches nothing exactly when the target occurs nowhere in the string |
| JavaString.ReplaceAllLength | src/main/java/org/jenkinsci/plugins/chatwork/ChatWorkNotifier.java:131 | output length is `|s| + k*(|r| - |t|)`, where k is the number of matched occurrences |
| JavaString.MatchCountBound | src/main/java/org/jenkinsci/plugins/chatwork/ChatWorkNotifier.java:131 | matches do not overlap: k occurrences of a non-empty target take at most `|s|` characters |
| JavaString.IndexOf | src/main/java/org/jenkinsci/plugins/chatwork/ChatWorkNotifier.java:131 | the index `String.replace` searches for is -1 or a position where the whole target fits |
| JavaString.IndexOfIsFirst | src/main/java/org/jenkinsci/plugins/chatwork/ChatWorkNotifier.java:131 | `IndexOf` is the first occurrence, and it is -1 exactly when the target does not occur |
| JavaString.ReplaceAllAtIndexOf | src/main/java/org/jenkinsci/plugins/chatwork/ChatWorkNotifier.java:131 | replace-all copies the text before the first occurrence, emits the replacement, then resumes right after the occurrence (left to right, never overlapping) |
| JavaString.ReplaceAllWhole | src/main/java/org/jenkinsci/plugins/chatwork/ChatWorkNotifier.java:131-136 | a placeholder on its own becomes exactly its replacement |
| JavaString.ReplaceAllBySelf | src/main/java/org/jenkinsci/plugins/chatwork/ChatWorkNotifier.java:131 | replacing a target by itself changes nothing |
| JavaString.ValueOf | src/main/java/org/jenkinsci/plugins/chatwork/ChatWorkNotifier.java:134 | the build number's rendering is non-empty, all decimal digits, and starts with '0' exactly when the number is 0 (then it is "0") |
| JavaString.ParseValueOf | src/main/java/org/jenkinsci/plugins/chatwork/ChatWorkNotifier.java:134 | reading the digits back gives the build number |
| JavaString.ValueOfHasNoDollar | src/main/java/org/jenkinsci/plugins/chatwork/ChatWorkNotifier.java:134 | the number's rendering holds no '$', so no later pass can match inside it |
| ChatWorkNotifier.UserString | src/main/java/org/jenkinsci/plugins/chatwork/ChatWorkNotifier.java:121-124 | defines the user string: each culprit's full name followed by one space, in culprit order |
| ChatWorkNotifier.UserStringExamples | src/main/java/org/jenkinsci/plugins/chatwork/ChatWorkNotifier.java:121-124 | no culprits give "", one culprit gives the name plus a space ("Alice" gives "Alice ") |
| ChatWorkNotifier.UserStringConcat | src/main/java/org/jenkinsci/plugins/chatwork/ChatWorkNotifier.java:121-124 | the user string of two runs of culprits is the two user strings joined, in order |
| ChatWorkNotifier.UserStringLength | src/main/java/org/jenkinsci/plugins/chatwork/ChatWorkNotifier.java:121-124 | its length is the sum of the name lengths plus the culprit count |
| ChatWorkNotifier.ChangeSetString | src/main/java/org/jenkinsci/plugins/chatwork/ChatWorkNotifier.java:126-129 | defines the change-set string: `author + " : " + msg + "\n"` for each entry, in change-log order |
| ChatWorkNotifier.ChangeSetStringExamples | src/main/java/org/jenkinsci/plugins/chatwork/ChatWorkNotifier.java:126-129 | no entries give "", one entry gives `author + " : " + msg + "\n"` (bob / "fix bug" gives "bob : fix bug\n") |
| ChatWorkNotifier.ChangeSetStringConcat | src/main/java/org/jenkinsci/plugins/chatwork/ChatWorkNotifier.java:126-129 | the change-set string of two runs of entries is the two strings joined, in order |
| ChatWorkNotifier.ChangeSetStringLength | src/main/java/org/jenkinsci/plugins/chatwork/ChatWorkNotifier.java:126-129 | each entry adds `|author| + |msg| + 4` characters |
| ChatWorkNotifier.Passes | src/main/java/org/jenkinsci/plugins/chatwork/ChatWorkNotifier.java:131-136 | defines the six (placeholder, replacement) pairs in the order the code applies them: user string, result, project name, build number, root URL + build path, change-set string |
| ChatWorkNotifier.ApplyPasses | src/main/java/org/jenkinsci/plugins/chatwork/ChatWorkNotifier.java:131-136 | defines running the passes one after another, each over the previous pass's output, as the reassigned `replacedMessage` does |
| ChatWorkNotifier.Render | src/main/java/org/jenkinsci/plugins/chatwork/ChatWorkNotifier.java:119-139 | defines the message `generatedMessage` returns: the six passes applied to the configured template |
| ChatWorkNotifier.RenderUnfolded | src/main/java/org/jenkinsci/plugins/chatwork/ChatWorkNotifier.java:131-136 | rendering is the composition of the six replace-all passes in the order user, result, project, number, url, changeSet |
| ChatWorkNotifier.ApplyPassesConcat | src/main/java/org/jenkinsci/plugins/chatwork/ChatWorkNotifier.java:131-136 | running the passes is running the first ones and then the rest over their output, so a pass sees all earlier passes' text |
| ChatWorkNotifier.ApplyPassesAbsent | src/main/java/org/jenkinsci/plugins/chatwork/ChatWorkNotifier.java:131-136 | text holding none of the passes' placeholders comes through every pass unchanged |
| ChatWorkNotifier.RenderTokenFree | src/main/java/org/jenkinsci/plugins/chatwork/ChatWorkNotifier.java:131-136 | a template containing none of the six placeholders renders to itself |
| ChatWorkNotifier.ApplyPassesSingle | src/main/java/org/jenkinsci/plugins/chatwork/ChatWorkNotifier.java:131-136 | a template that is one placeholder renders to that placeholder's replacement when no earlier placeholder is inside it and no later one is inside the replacement |
| ChatWorkNotifier.ReplaceAllFill | src/main/java/org/jenkinsci/plugins/chatwork/ChatWorkNotifier.java:131-136 | one pass over a template made of `$`-free literal text and placeholders turns exactly that pass's placeholders into its replacement and copies everything else, when the earlier passes' replacements hold no `$` |
| ChatWorkNotifier.ApplyPassesFill | src/main/java/org/jenkinsci/plugins/chatwork/ChatWorkNotifier.java:131-136 | the remaining passes fill every placeholder of such a template with its value |
| ChatWorkNotifier.PassesSeparable | src/main/java/org/jenkinsci/plugins/chatwork/ChatWorkNotifier.java:131-136 | each of the six placeholders starts with the only `$` in it, none is a prefix of another, and with `$`-free build values none of the first five replacements holds a `$` (the change-set string, substituted last, may) |
| ChatWorkNotifier.RenderFill | src/main/java/org/jenkinsci/plugins/chatwork/ChatWorkNotifier.java:131-136 | a template of `$`-free literal text and placeholders renders to the same text with each placeholder replaced by its value, when no value except the change-set string (substituted last, never rescanned) holds a `$` |
| ChatWorkNotifier.RenderExample | src/main/java/org/jenkinsci/plugins/chatwork/ChatWorkNotifier.java:131-136 | `Build ${project} #${number}: ${result} (${url})` for demo, 42, SUCCESS, root `http://ci/` and path `job/demo/42/` renders to `Build demo #42: SUCCESS (http://ci/job/demo/42/)` |
| ChatWorkNotifier.RenderSplicesProjectName | src/main/java/org/jenkinsci/plugins/chatwork/ChatWorkNotifier.java:133-135 | a project name `${` followed by the literal `url}` becomes `${url}`, which the url pass expands to root URL + build path |
| ChatWorkNotifier.RenderUserToken | src/main/java/org/jenkinsci/plugins/chatwork/ChatWorkNotifier.java:131 | `${user}` renders to the user string, unless it holds a later placeholder |
| ChatWorkNotifier.RenderResultToken | src/main/java/org/jenkinsci/plugins/chatwork/ChatWorkNotifier.java:132 | `${result}` renders to the result's string form, unless it holds a later placeholder |
| ChatWorkNotifier.RenderProjectToken | src/main/java/org/jenkinsci/plugins/chatwork/ChatWorkNotifier.java:133 | `${project}` renders to the project name, unless it holds a later placeholder |
| ChatWorkNotifier.RenderChangeSetToken | src/main/java/org/jenkinsci/plugins/chatwork/ChatWorkNotifier.java:136 | `${changeSet}` renders to the change-set string verbatim, placeholders in commit messages included |
| ChatWorkNotifier.RenderNumberToken | src/main/java/org/jenkinsci/plugins/chatwork/ChatWorkNotifier.java:134 | `${number}` renders to the decimal rendering of the build number |
| ChatWorkNotifier.RenderUrlToken | src/main/java/org/jenkinsci/plugins/chatwork/ChatWorkNotifier.java:135 | `${url}` renders to exactly root URL + build path, with no separator, unless that text holds `${changeSet}` |
| ChatWorkNotifier.RenderRescansCulpritName | src/main/java/org/jenkinsci/plugins/chatwork/ChatWorkNotifier.java:131-133 | a culprit named `${project}` is expanded by the later project pass: `${user}` renders to the project name plus a space |
| ChatWorkNotifier.GeneratedMessage | src/main/java/org/jenkinsci/plugins/chatwork/ChatWorkNotifier.java:119-139 | the two builder loops and six reassignments produce exactly `Render(template, build, rootUrl)` |
| ChatWorkNotifier.ApiUrl | src/main/java/org/jenkinsci/plugins/chatwork/ChatWorkNotifier.java:74 | the endpoint is `https://api.chatwork.com/v1/rooms/`, then the room id, then `/messages` |
| ChatWorkNotifier.RoomIdOfApiUrl | src/main/java/org/jenkinsci/plugins/chatwork/ChatWorkNotifier.java:74 | the room id can be read back from the endpoint, and any URL that reads back to an id is that id's endpoint |
| ChatWorkNotifier.PostData | src/main/java/org/jenkinsci/plugins/chatwork/ChatWorkNotifier.java:76 | the body is `body=` followed by the encoded message |
| ChatWorkNotifier.BodyOfPostData | src/main/java/org/jenkinsci/plugins/chatwork/ChatWorkNotifier.java:76 | the encoded message can be read back from the body, and a body that reads back to it is its post data |
| ChatWorkNotifier.Perform | src/main/java/org/jenkinsci/plugins/chatwork/ChatWorkNotifier.java:72-117 | the request goes to the room's endpoint with the rendered, encoded message as body, and the step returns true whatever the delivery did |

## Left out

- The HTTP exchange in `perform` (ChatWorkNotifier.java:78-116) is network I/O and is not modelled. That covers opening the connection, the `X-ChatWorkToken` header carrying the API token, writing the body, draining the response and closing the streams. `Perform` takes the exchange's outcome as the parameter `delivery` and ignores it.
- The logging of a caught `IOException` (106-108) is not modelled. The only thing kept is that the step returns `true` whatever I/O failure the exchange ends in.
- Perform: does not model exceptions that escape `perform`. `catch (IOException e)` (106) does not catch unchecked exceptions thrown inside the `try`, such as `setRequestProperty` (89) rejecting a line break in the API token. Exceptions from lines 74-78, before the `try`, also propagate. `proceed` is the value returned on every path that returns.
- ReplaceAll: counts in Unicode scalar values, where Java counts UTF-16 code units. For the empty target, Java also puts the replacement between the two halves of a supplementary character, and `MatchCount` and the length lemmas count scalar values, not `length()`. Rendering does not depend on this, because the six placeholders are non-empty and ASCII.
- `URLEncoder.encode` is a library call whose body is not part of this model. It is the function parameter `encode`, so no form-encoding fact (such as `a b&c` becoming `a+b%26c`) is proved.
- `build.getResult().toString()` is an opaque string field. `getCulprits`, `getChangeSet`, `User.getFullName`, `getProject().getName()` and `getUrl()` are plain input values. `Entry.author` is the string that line 128's concatenation makes of the `User` returned by `entry.getAuthor()` (its `toString()`).
- `JenkinsLocationConfiguration.get().getUrl()` is the parameter `rootUrl`. Java would turn an unconfigured (null) root URL into the text "null". The model has no null strings, and for the same reason it has no "null" room id in `String.format`.
- `ValueOf`: it renders only non-negative build numbers. Java's `String.valueOf(int)` also renders a leading '-' for negative ints, which Jenkins build numbers never are.
- The constructor, the getters, `getRequiredMonitorService` and the `DescriptorImpl` class (39-70, 141-162) are plugin registration and UI glue with no logic.
