# Heal 360 site migration and page scripts, modelled in Dafny

The Heal 360 site moved from flat pages (`about.html`, `blog.html`, …) to one folder per page
(`about/index.html`, …). Two one-off scripts do the move:

- `migrate_urls.py` holds `update_content`, which has two modes.
  - In subpage mode it prefixes the page's resource references with `../`.
  - It rewrites every `href="…"` through `replace_link`.
  - In subpage mode it also adds `class="active"` to every link to the page's own folder.
  - A driver loop moves each page of the `pages` table into its folder. It then rewrites the
    root `index.html` in root mode.
- `migrate_urls.js` does the same job with an ordered chain of global regular-expression
  replacements. Its page names are built into the patterns unescaped, so their dots are
  wildcards. It marks only the first self link, and it has its own skip, mkdir, write and
  unlink loop.

The site's `script.js` holds the rest of the model:

- the blog tab strip: `activateTab`, the post filter, the keyboard handler and the start-up
  selection;
- `setActiveNavLink`;
- the submit-time form validation, including the email test;
- the phone digit filter;
- the exclusive dropdown menus.

Project layout:

| file | module | what it holds |
|---|---|---|
| `option.dfy` | `Options` | The `Option` datatype. |
| `rx.dfy` | `Rx` | Fixed-width patterns: a literal character, JavaScript's `.`, `\D`. Global and first-only replacement as `String.replace` performs them. Lemmas on where patterns match and how replacements split and compose. |
| `migrate_py.dfy` | `MigratePy` | `pages`, the resource rules, `replace_link`, the `re.sub` pass over `href="([^"]+)"`, the active marker and `update_content`. |
| `migrate_js.dfy` | `MigrateJs` | `filesToMigrate` and the rewrite chain of `migrate()`. The chain is a function `Rewrite` plus the method `RewritePage`, which reassigns `content` step by step the way the script does. |
| `site.dfy` | `Site` | The working directory as files with their text and a set of folders. A `Directory` class whose methods write, create and delete one path at a time. |
| `move_loop.dfy` | `MoveLoop` | The skip, read, rewrite, mkdir, write and delete loop over the page table. It is stated for any rewrite of the page text. |
| `py_driver.dfy`, `js_driver.dfy` | `PyDriver`, `JsDriver` | Each script's driver as an imperative method on a `Directory`. Each is proved equal to a function of the starting directory. Lemmas relate the two scripts. |
| `tabs.dfy`, `navlinks.dfy`, `forms.dfy`, `dropdown.dfy` | `Tabs`, `NavLinks`, `Forms`, `Dropdowns` | The `script.js` logic. Each DOM collection is an array of per-element state, updated in place. |

How file-system calls are modelled:

- A failing call ends a run as `Crashed`, with the directory as it stood at that moment. Otherwise the run ends as `Done`.
- `os.makedirs(…, exist_ok=True)` fails only where a file of that name exists.
- `fs.mkdir(…, {recursive: true})` errors are swallowed. The write that follows then fails instead.
- Writing a file fails where a directory of that name exists. So does reading a path that is a directory.

## Model

| member | source | states |
|---|---|---|
| MigratePy.PagesPrefixFree | migrate_urls.py:6-14 | No file name in the `pages` table is a prefix of another, so at most one entry can name a given link. |
| MigratePy.ApplyRules | migrate_urls.py:25-29 | Each rule's `str.replace` in table order. Proved about it: ApplyRulesIdentity (no pattern, no change), ApplyRulesNoResidual (no pattern of any applied rule is left) and ApplyRulesAround (a reference is rebased where it stands), with the one-kind case below. |
| MigratePy.RebaseResources | migrate_urls.py:25-29 | The resource step of subpage mode, the five rules applied in order. Proved about it: RebaseAround, RebaseOneKind, RebaseLeavesNoPattern and RebaseIdempotent below. |
| MigratePy.RebaseAround | migrate_urls.py:25-29 | For every page a + reference + b, where the reference is any of the five patterns, the resource step rebases that reference in place and rebases a and b on their own. So on a page mixing all five kinds every occurrence gains its `../` where it stands and the rest is kept. No later rule re-matches a rebased reference, and no pattern reaches into or out of one. |
| MigratePy.ApplyRulesAround | migrate_urls.py:25-29 | Any list of well-formed rules goes through a + m + b as through a and b apart, when m is one rule's reference (before or after that rule's replace) and no other rule's pattern can meet it. |
| MigratePy.RebaseOneKind | migrate_urls.py:25-29 | On a page where only one of the five resource patterns occurs, the resource step is exactly the literal replace-all of that pattern by its `../` form. Every occurrence gains the prefix and nothing else changes. |
| MigratePy.RebaseLeavesNoPattern | migrate_urls.py:25-29 | After the resource step, none of the five unprefixed patterns occurs anywhere in the page, including where a later replacement could have created one. |
| MigratePy.RebaseIdempotent | migrate_urls.py:25-29 | The resource step never re-matches its own output. Applied twice it gives the same text as once, so no `../../` arises. |
| MigratePy.ApplyRulesIdentity | migrate_urls.py:25-29 | A page holding none of the patterns passes the resource step unchanged. |
| MigratePy.HrefAtIff | migrate_urls.py:61 | The token `href="([^"]+)"` matches at a position with group u exactly when the text there spells `href="u"` and u is non-empty and holds no quote. |
| MigratePy.SubHrefFrom | migrate_urls.py:61 | `re.sub(r'href="([^"]+)"', callback, s)` scanning from an offset. What it does is proved in HrefAtIff, SubHrefSplit, SubHrefNoToken and SubHrefIdentity. |
| MigratePy.SubHrefSplit | migrate_urls.py:61 | `re.sub` copies the text before the next token verbatim. It replaces that token by the callback's value and goes on after the token. |
| MigratePy.SubHrefNoToken | migrate_urls.py:61 | Text with no `href="…"` token passes `re.sub` unchanged. |
| MigratePy.SubHrefIdentity | migrate_urls.py:61 | A callback that gives every token back unchanged leaves the whole text unchanged. |
| MigratePy.FindPage | migrate_urls.py:51-52 | The result is the first table entry, in table order, whose file the link equals or is followed by `?` or `#`. None means no entry matches. |
| MigratePy.LinkTarget | migrate_urls.py:37-59 | The value `replace_link` gives one link. Its three outcomes are proved in LinkTargetVerbatimIff, IndexLinkRewritten and PageLinkRewritten, and the suffix rule in SuffixDropsEveryOccurrence. |
| MigratePy.ReplaceLink | migrate_urls.py:37-59 | The whole replacement of one token, `href="` then the new value then `"`, as the callback returns it. |
| MigratePy.PageLinkLookup | migrate_urls.py:39-52 | A link naming page k is neither external nor an index link, and the table search finds exactly entry k. |
| MigratePy.LinkTargetVerbatimIff | migrate_urls.py:37-59 | `replace_link` returns a value unchanged exactly when it is external (`http`, `#`, `mailto:`), or names neither `index.html` nor any page of the table. |
| MigratePy.IndexLinkRewritten | migrate_urls.py:43-48 | `index.html` and `index.html#frag` become `../#frag` from a subpage and `./#frag` from the root. |
| MigratePy.PageLinkRewritten | migrate_urls.py:51-57 | A link naming page k, exactly or followed by `?…` or `#…`, becomes `../<folder>/<suffix>` from a subpage and `<folder>/<suffix>` from the root. |
| MigratePy.SuffixDropsEveryOccurrence | migrate_urls.py:53 | The suffix is the link with every occurrence of the file name removed, not just the leading one. So `about.html#about.html` becomes `../about/#`. |
| MigratePy.LinkPass | migrate_urls.py:61 | The `re.sub` pass with `replace_link` as the callback. LinkPassVerbatim states when it changes nothing, and the SubHref lemmas say how it splits around each token. |
| MigratePy.LinkPassVerbatim | migrate_urls.py:37-61 | When every link of a page is one `replace_link` keeps, the link pass returns the page unchanged. Text outside the tokens is never altered. |
| MigratePy.Lookup | migrate_urls.py:69 | `pages[key]` is defined exactly for the table's file names and gives that entry's folder. |
| MigratePy.UpdateContent | migrate_urls.py:18-85 | The three stages in order: resources in subpage mode, the link pass, and the active marker in subpage mode when a page name is given. None stands for the KeyError of `pages[...]`. Proved about it: UpdateContentFailsIff and RootWithoutLinksUnchanged below, and through the driver MigrateMovesPages and MigrateRewritesRoot. |
| MigratePy.UpdateContentFailsIff | migrate_urls.py:68-69 | `update_content` fails, on the KeyError of `pages[...]`, exactly in subpage mode with a non-empty page name that is not in the table. |
| MigratePy.RootWithoutLinksUnchanged | migrate_urls.py:20-22 | In root mode, resources are left alone and no marker is added. A root page without `href` tokens comes back as it was. |
| MigratePy.MarkActiveMarksEvery | migrate_urls.py:81-83 | `re.sub` without a count marks every self link. Two adjacent links to the current folder both get `class="active"`. |
| MigratePy.MarkActive | migrate_urls.py:81-83 | `re.sub` of the escaped self link by the marked link. Proved about it: MarkActiveMarksEvery and MarkActiveAround. |
| MigratePy.MarkActiveAround | migrate_urls.py:81-83 | A self link anywhere in a page is marked where it stands, and the text on each side is marked on its own. So every self link in the page gets `class="active"`, wherever it is. |
| MigrateJs.FilesArePages | migrate_urls.js:6-14 | `filesToMigrate` lists the same files, in the same order, as the Python `pages` table. |
| MigrateJs.BaseName | migrate_urls.js:28 | `file.replace('.html', '')`: the first `.html` removed. BaseNameIsFolder states its value for every listed file. |
| MigrateJs.BaseNameIsFolder | migrate_urls.js:28-29 | Removing the first `.html` from each listed file gives the folder the Python table assigns it. |
| MigrateJs.Resources | migrate_urls.js:32-36 | The five escaped global replaces, in order. ResourcesAsPython equates them with the Python resource step, and ResourcesAround rebases each reference in place. |
| MigrateJs.ResourcesAround | migrate_urls.js:32-36 | For every page, each of the five references gains `../` where it stands, and the text on each side is rebased on its own, whatever other references it holds. |
| MigrateJs.ResourcesAsPython | migrate_urls.js:32-36 | The five global regex replacements give exactly the Python resource step. This lets the prefixing and no-double-prefix properties carry over. |
| MigrateJs.RewritePage | migrate_urls.js:27-69 | The statements that reassign `content`, run in order, produce the rewrite chain `Rewrite`. The `forEach` is a loop whose invariant is the chain applied to the files done so far. |
| MigrateJs.Rewrite | migrate_urls.js:27-69 | The text written for a page: resources, the index link, the `forEach`, then the self-link marker. RewritePage is proved to compute it, and the lemmas below state what each stage does. |
| MigrateJs.IndexStep | migrate_urls.js:39 | The escaped global replace of `href="index.html"` by `href="../"`. Proved about it: IndexStepExactOnly and IndexStepAround. |
| MigrateJs.IndexStepExactOnly | migrate_urls.js:39 | Every exact `href="index.html"` becomes `href="../"`. `index.html#frag` is left alone, where the Python script moves it to `../#frag`. |
| MigrateJs.IndexStepAround | migrate_urls.js:39 | An exact `href="index.html"` anywhere in a page becomes `href="../"` where it stands, and the text on each side is rewritten on its own. So every occurrence is rewritten. |
| MigrateJs.LinkStep | migrate_urls.js:48-56 | One pass of the `forEach` body: the exact replace, then the suffix replace. Proved about it: LinkStepAround and LinkStepLeavesNoLink below. |
| MigrateJs.LinkSteps | migrate_urls.js:47-57 | The `forEach` over the listed files, in order. Proved about it: the link lemmas below, from LinksRewriteExact to LinkStepsLeaveNoLink. |
| MigrateJs.LinksRewriteExact | migrate_urls.js:47-50 | For every listed file f, whichever page is being migrated, the link `href="<f>"` becomes `href="../<name>/"` at f's pass of the `forEach`. It stays so through every later pass. |
| MigrateJs.LinksRewriteSuffix | migrate_urls.js:55-56 | The link `href="<f>#…"` or `href="<f>?…"` becomes `href="../<name>/#…"` or `href="../<name>/?…"` at f's pass, keeping the marker and everything after it. It stays so through every later pass. |
| MigrateJs.ExactLinkInPage | migrate_urls.js:47-50 | An exact link of a listed file anywhere in a page is rewritten where it stands. The `forEach` over the page is the `forEach` over the text before it, then the folder link, then the `forEach` over the text after it. |
| MigrateJs.SuffixLinkInPage | migrate_urls.js:55-56 | The same for a link with a `#` or `?` suffix, whose tail after the marker holds no `hr`. |
| MigrateJs.LinkStepAround | migrate_urls.js:48-56 | One pass over `a + m + b` is the pass over each piece, when no match of the pass's patterns runs across the ends of the link m. |
| MigrateJs.LinkStepLeavesNoLink | migrate_urls.js:48-56 | A file's pass removes every match of its own two patterns and creates no match of any listed file's patterns. |
| MigrateJs.LinkStepsLeaveNoLink | migrate_urls.js:47-57 | After the `forEach`, no exact or suffixed link of any listed file is left anywhere in the page. This includes links that the replacements themselves could have formed. |
| MigrateJs.OtherFileNoMatch | migrate_urls.js:47-56 | A link naming one listed file is matched by neither pattern of any other listed file, despite the wildcard dots. |
| MigrateJs.LinkStepsNoMatch | migrate_urls.js:47-57 | Text that no file's pattern matches passes the `forEach` unchanged. |
| MigrateJs.DotReplacedMatches | migrate_urls.js:49 | The unescaped dot of `about.html` matches any character except a line terminator. |
| MigrateJs.WildcardDotQuirk | migrate_urls.js:49 | A link like `aboutXhtml` is rewritten to `../about/`, while the Python script keeps it as it is. |
| MigrateJs.MarkSelfFirstOnly | migrate_urls.js:68-69 | Without the `g` flag only the first self link is marked. Of two adjacent self links the Python script marks both. |
| MigrateJs.MarkSelfAtMostOnce | migrate_urls.js:68-69 | A page without a self link is unchanged. Otherwise exactly its first self link gets `class="active"` and everything else is kept. |
| MigrateJs.MarkSelf | migrate_urls.js:68-69 | The self-link replace without the `g` flag. Proved about it: MarkSelfFirstOnly and MarkSelfAtMostOnce. |
| MoveLoop.PathsDistinct | migrate_urls.py:99-102 | Originals, folders, new pages and the root `index.html` are pairwise distinct paths. |
| MoveLoop.Step | migrate_urls.py:89-108 | One pass of the loop body on the directory, for any rewrite of the page text. Proved about it: the StepSkipsMissing to StepFrame rows below. |
| MoveLoop.StepSkipsMissing | migrate_urls.py:89-92 | A missing original is skipped with no change to the directory. |
| MoveLoop.StepMoves | migrate_urls.py:94-108 | A present original becomes `<folder>/index.html` holding the rewritten text. The folder exists afterwards, the original is deleted, and the new page survives the deletion. The whole new directory is stated. |
| MoveLoop.StepWrites | migrate_urls.py:97-104 | A completed step for a present original leaves that original's rewritten text at its new page. |
| MoveLoop.StepCrashKeepsFiles | migrate_urls.py:94-108 | A step that fails has written and deleted nothing. At most the folder was created. |
| MoveLoop.StepFrame | migrate_urls.py:88-108 | A step changes no file other than its own original and new page. |
| MoveLoop.Loop | migrate_urls.py:88-108 | The loop over the table from an entry on, ending at the first failure. Proved about it: the LoopFrame to LoopSameShape rows below. |
| MoveLoop.LoopFrame | migrate_urls.py:88-108 | The loop never creates or changes any other path, never removes a folder, and removes a file only when it is one of the originals. |
| MoveLoop.LoopRemovesOriginals | migrate_urls.py:88-108 | After a complete loop no original exists any more. |
| MoveLoop.LoopMovesEvery | migrate_urls.py:88-108 | Every original present at the start of a complete loop ends as its folder's `index.html`, holding its rewritten text. Later entries never overwrite it. |
| MoveLoop.SecondRunSkips | migrate_urls.py:88-92 | After a complete loop, running the loop again, with either rewrite, changes nothing. |
| MoveLoop.LoopSameShape | migrate_urls.py:88-108 | For rewrites that never fail, the loop's effect on which files and folders exist does not depend on the rewrite. |
| PyDriver.SubpagesNeverFail | migrate_urls.py:97 | `update_content` in subpage mode cannot fail for any name the loop passes to it. |
| PyDriver.Migrate | migrate_urls.py:88-118 | The whole script as a function of the starting directory: the page loop, then the root. RunMigration is proved to compute it. MigrateMovesPages and MigrateRewritesRoot state its result. |
| PyDriver.RootStep | migrate_urls.py:110-118 | The root `index.html` read, rewritten in root mode and written back. RewriteRoot is proved to compute it. |
| PyDriver.MigrateMovesPages | migrate_urls.py:88-108 | After a complete run, every page present at the start is its folder's `index.html`, rewritten in subpage mode, and its original is gone. |
| PyDriver.MigrateRewritesRoot | migrate_urls.py:110-118 | A complete run rewrites the root `index.html` in root mode from the text it had at the start. The page loop never touches it. |
| PyDriver.RunMigration | migrate_urls.py:88-118 | Running the script call by call on a directory ends as the script's function of the starting directory says: the page loop, then the root. |
| PyDriver.MovePage | migrate_urls.py:88-108 | One pass of the loop body, call by call, does what one loop step says. |
| PyDriver.RewriteRoot | migrate_urls.py:111-118 | Reading, rewriting and writing back the root index does what the root step says. |
| Site.Directory.WriteFile | migrate_urls.py:103-104 | Writing creates or overwrites exactly one file and changes nothing else. |
| Site.Directory.MakeDir | migrate_urls.py:100 | Creating a folder adds it, or keeps an existing one, and changes nothing else. |
| Site.Directory.RemoveFile | migrate_urls.py:108 | Removing deletes exactly one file and changes nothing else. |
| JsDriver.RunMigration | migrate_urls.js:16-84 | Running `migrate()` call by call ends as the JS loop function of the starting directory says. |
| JsDriver.MovePage | migrate_urls.js:17-83 | One pass of the loop body, call by call, with mkdir errors swallowed, does what one JS step says. |
| JsDriver.PageStep | migrate_urls.js:17-83 | One pass of the JS loop on the directory. MovePage is proved to compute it. PageStepSkipsMissing, PageStepMoves, PageStepCrashKeepsFiles and PageStepIsLoopStep state what it does. |
| JsDriver.PagesFrom | migrate_urls.js:16-84 | The JS loop from an entry on. RunMigration is proved to compute it. PagesFromIsLoop, RunMovesFiles, RunAgainSkips and LikePython state its result. |
| JsDriver.PageStepSkipsMissing | migrate_urls.js:19-25 | A file that fails the access check is skipped with no mkdir, write or unlink. |
| JsDriver.PageStepMoves | migrate_urls.js:72-83 | A present file is written, rewritten, to `<name>/index.html`, with `<name>` the file name minus `.html`. It is unlinked only after that write, and the new page survives. The whole new directory is stated. |
| JsDriver.PageStepCrashKeepsFiles | migrate_urls.js:72-83 | A failing JS step has written and unlinked nothing. |
| JsDriver.PageStepIsLoopStep | migrate_urls.js:17-83 | A JS loop pass is the shared loop step with the rewrite chain as the rewrite. So everything proved about that step holds for it. |
| JsDriver.PagesFromIsLoop | migrate_urls.js:17-84 | The JS loop is the shared loop with the rewrite chain. |
| JsDriver.RunMovesFiles | migrate_urls.js:17-83 | After a complete run, every listed file present at the start is `<name>/index.html` holding its rewritten text, and the file itself is gone. |
| JsDriver.RunAgainSkips | migrate_urls.js:17-25 | After a complete JS run, the JS loop again, or the Python page loop, finds nothing to move. |
| JsDriver.LikePython | migrate_urls.js:17-83 | On the same directory both scripts' page loops finish or fail alike and leave the same files and folders. Only the text of the new pages differs. |
| Tabs.TabStrip.ActivateTab | script.js:59-76 | A missing button changes nothing. Otherwise exactly that tab is active, with `aria-selected="true"` and tabIndex 0, and every other tab is inactive, with "false" and -1. Each post is shown exactly when the category is `all` or the post has that class, and hidden otherwise. |
| Tabs.Shows | script.js:68-75 | The post filter: `all` shows every post, another category only posts with that class. ActivateTab is proved to set each post's display by it. |
| Tabs.JsRem | script.js:96-100 | JavaScript's `%` keeps the dividend's sign and lies strictly between -n and n. For the arrow-key operands it is the ordinary remainder. |
| Tabs.OnKey | script.js:88-113 | Exactly the six listed keys are handled. Arrow, Home and End keys always move focus to a valid tab and throw only when there are no tabs. Enter and Space activate only the focused tab button. |
| Tabs.ArrowsWrap | script.js:94-101 | ArrowRight and ArrowLeft step to the next and previous tab, wrapping at both ends, and undo each other. |
| Tabs.ArrowsFromOutside | script.js:92-101 | With focus outside the tabs, ArrowRight goes to the first tab and ArrowLeft to the second-to-last, or to the only tab when there is one. |
| Tabs.TabStrip.KeyDown | script.js:86-115 | The handler prevents the default exactly for the six keys, moves focus as the key says, and activates a tab only on Enter or Space over a tab button. Otherwise no tab or post state changes. |
| Tabs.InitialTab | script.js:119 | The result is the first tab with the active class, or tab 0 when none has it. |
| Tabs.InitKeepsMarkedTab | script.js:119 | Start-up keeps a tab that is already marked active, the first such tab when there are several. |
| Tabs.TabStrip.Init | script.js:118-122 | With tabs present, start-up selects the tab `InitialTab` picks from the starting classes and filters the posts for it. With no tabs it changes nothing. |
| NavLinks.LastSegment | script.js:315 | The result is the longest slash-free tail of the text, and the character before it is a `/`. |
| NavLinks.CurrentPage | script.js:315-316 | The current page is the path's last segment, or `index.html` when that segment is empty. It is never empty and holds no `/`. |
| NavLinks.LastSegmentOfName | script.js:336 | The last segment of `dir/name` is `name`, whatever `dir` is. |
| NavLinks.Marked | script.js:323-340 | Whether a link's href names the current page: a `#…` link on the site root, any other link by its last segment. PageLinkMarked and FolderLinkNeverMarked state it for the links the site holds, and SetActiveNavLink marks exactly the links it accepts. |
| NavLinks.PageLinkMarked | script.js:323-340 | A link to a page file is marked on that page, wherever the link and the page sit. A `#…` link is marked on the site root. |
| NavLinks.FolderLinkNeverMarked | script.js:336-337 | A folder link as the migration scripts write it (`../about/`) is never marked: its last segment is empty. |
| NavLinks.NavBar.SetActiveNavLink | script.js:312-346 | Afterwards every link has the active class and `aria-current="page"` exactly when it names the current page. All other links have neither. |
| NavLinks.NavBar.UpdateLink | script.js:318-341 | The callback for one link clears it, then marks it when it names the current page, and leaves every other link as it was. |
| Forms.TrimEmptyIff | script.js:183 | A field is empty after `trim()` exactly when it is all white space. |
| Forms.Trim | script.js:183 | `String.prototype.trim` over the white-space list below. TrimEmptyIff states when it leaves nothing. |
| Forms.IndexOf | script.js:176 | The first field that is an email input, or none. |
| Forms.EmailOkMatches | script.js:193 | Every value the direct test accepts matches `^[^\s@]+@[^\s@]+\.[^\s@]+$`. |
| Forms.EmailMatchesOk | script.js:193 | Every value the regular expression matches passes the direct test. |
| Forms.EmailOkIff | script.js:193 | The direct test accepts exactly the values the regular expression matches. |
| Forms.EmailOk | script.js:193 | The email test decided directly. EmailOkMatches, EmailMatchesOk and EmailOkIff prove it equal to the regular expression. |
| Forms.SubmitBlocked | script.js:175-206 | Whether the submit handler blocks a form. Form.Submit is proved to prevent submission exactly when it holds. |
| Forms.Form.Submit | script.js:175-206 | Every required field is marked as an error exactly when it is blank after trimming. A filled-in first email field is marked by the email test. Submission is prevented exactly when some required field is blank or a filled-in email fails. |
| Forms.PhoneFilterKeepsDigits | script.js:229 | `replace(/\D/g, '')` keeps exactly the digits, in order. |
| Forms.PhoneFilterIdempotent | script.js:229 | Filtering the phone value a second time changes nothing. |
| Forms.PhoneFilter | script.js:229 | `value.replace(/\D/g, '')` as a global replace. PhoneFilterKeepsDigits, PhoneFilterIdempotent and PhoneInput.OnInput state what it keeps. |
| Forms.PhoneInput.OnInput | script.js:227-230 | After an input event the field holds the digits of what it held, in order. |
| Dropdowns.Menus.ClickToggle | script.js:423-440 | Every other open wrapper is closed and its toggle set to "false". The clicked wrapper flips, and its toggle is set to the negation of its own aria-expanded. Afterwards at most that wrapper is open, and a consistent menu bar stays consistent. |
| Dropdowns.Menus.ClickOutside | script.js:444-449 | Every open wrapper is closed and its toggle set to "false". Nothing else changes. |

## Left out

- File contents are strings of characters. UTF-8 decoding and encoding, the hard-coded Windows working directory and path joining are not modelled. Paths are relative to the site root.
- JavaScript strings are sequences of UTF-16 code units, and a regular expression without the `u` flag reads one code unit per `.`. Characters here are Unicode scalar values. A character above U+FFFF is one character in the model but two code units in JavaScript, so the model's wildcard reads it whole where JavaScript's `.` reads half of it.
- MigrateJs.DotReplacedMatches and MigrateJs.WildcardDotQuirk are stated only for a replacing character below U+10000, where one character is one code unit.
- PyDriver.MigrateMovesPages and PyDriver.MigrateRewritesRoot state the text `update_content` returns for the text read. Python's text mode also translates line endings: a read turns `\r\n` and `\r` into `\n`, and a write turns `\n` into the platform's line separator, `\r\n` on Windows. Files on disk differ from the model's text by that translation, which is not modelled.
- MigrateJs.SuffixLinkInPage is stated only for a link whose tail after the marker holds no `hr`. Otherwise a file's exact pattern can start inside the link and read past its closing quote. For example, `href="about.html#href="` followed by `about.html"` is rewritten across the quote. LinkStepsLeaveNoLink still holds for such pages.
- The scripts' console messages and `print` output are not modelled. They are output only.
- The promise plumbing of `migrate()` is not modelled: `await`, rejections and `migrate().catch(console.error)`. A rejected call ends the run, as the model's `Crashed` outcome says. Nothing runs concurrently, because every call is awaited in turn.
- Failures other than the ones listed at the top are not modelled: permissions, a full disk, a read that fails on a present file. The directory model cannot express them.
- Regular expressions are modelled only as far as the scripts use them:
  - fixed-width patterns;
  - the callback-based `re.sub` over `href="([^"]+)"`;
  - the `^[^\s@]+@[^\s@]+\.[^\s@]+$` test, written as its direct characterisation and proved equivalent to it.
  No general regex engine is modelled.
- JavaScript's `\s`, and the set `trim()` removes, is modelled as a fixed list of characters:
  - tab, line feed, vertical tab, form feed, carriage return and space;
  - U+00A0, U+1680, U+2000-U+200A, U+2028, U+2029, U+202F, U+205F, U+3000 and U+FEFF.
- `activateTab` and the key handler take the button as a tab index. The focused element is a tab index, or -1 when it is anything else. DOM identity is not modelled.
- In the key handler, focusing a tab of an empty strip throws. The model reports this as the `Throws` effect instead of an exception.
- `setActiveNavLink` takes a missing `href` attribute as the empty string, which the source treats the same way. Its `try`/`catch` catches nothing the model can raise.
- The newsletter form's own submit handler (script.js:212-219) is not modelled. It shows an alert and clears the field.
- The `alert` on a blocked submit is not modelled.
- Nothing else in `script.js` is modelled: the Escape handlers, mobile menu toggles, smooth scrolling and offsets, IntersectionObserver effects, timers and scroll debounce, the header logo probe, `URLSearchParams` and the reading-time estimate. They are DOM glue, float geometry or event timing.
- Dropdowns.Menus.ClickToggle: a wrapper's toggle is stored at the wrapper's index. The case of a toggle outside any `.dropdown-wrapper` is not modelled (there `closest` returns null and the handler throws).
