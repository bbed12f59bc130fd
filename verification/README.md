# format_onetopicplus: the course-format rules as a verified Dafny model

`format_onetopicplus` is a course format for the Moodle learning platform. It
shows each course section as a tab and can turn a section summary into a
template that places the section's activities inline. Most of the plugin
assembles HTML and calls host services. Underneath that are small rules that
decide what the page shows. This project models those rules as pure Dafny
functions over plain values: sections are records in a sequence, capabilities
are booleans, and user preferences and module tables are maps. It then proves
what the rules guarantee.

The modules follow the plugin's structure:

- `Course`: the section record and the course display mode.
- `DisplaySection`: which section a course page opens on (the format's constructor).
- `SectionParents`: the parent map `fot_get_sections_extra` and the availability hook.
- `FormatOptions`: options back-filled when a course switches format.
- `Navigation`: previous/next section links (`get_nav_links`).
- `TabTree`: the tab bar of a section page (the loop of `print_single_section_page`).
- `EditControls`: the section edit menu (`section_edit_control_items`).
- `Placeholders`: `[[Activity name]]` placeholders (`replace_tag_in_expresion` and the `preg_replace_callback` scan).
- `Template`: `replace_resources` and `custom_course_section_cm_list`.
- `ModuleFilter`: `cm_filter`, the custom-field replacer of module tiles.
- `TileText`: `is_empty` and `removeImage`.
- `Stars`: starred modules (`format_onetopicplus_stars` and ajax.php).
- `PhpStrings` and `OrderedMap`: the PHP string functions and string-keyed arrays the rules use.

Host services are passed in as values, not called:

- capabilities, user preferences and course settings;
- the html the host renders for a module;
- custom-field values;
- the regular-expression rewriting of tagged placeholders (a function parameter).

## Model

| member | source | states |
|---|---|---|
| DisplaySection.PreferredSection | lib.php:106-127 | the preferred section always lies in `[0, numsections]` |
| DisplaySection.RequestedSectionFirst | lib.php:106-127 | a requested section that exists is used as is; multipage mode only turns a requested 0 into 1 |
| DisplaySection.FallbackPrecedence | lib.php:108-127 | without a usable request: the last displayed section if in range, then a positive marker if in range, then 0; in multipage mode 0 becomes 1 when section 1 exists |
| DisplaySection.FirstFallbackFrom | lib.php:139-153 | the fallback search returns the first section from its start that is a level-0 tab, available and visible to the user, or nothing when there is none |
| DisplaySection.ResolveDisplaySection | lib.php:106-157 | the displayed section is in range; it is the preferred one when the user may see hidden sections or can open it; otherwise it is the first qualifying top-level tab from 1 (display mode set) or 0, else 0 |
| DisplaySection.ReopenKeepsSection | lib.php:106-157 | resolving again with the resolved section remembered and no usable request gives the same section, except that multipage mode turns a resolved 0 into 1 |
| DisplaySection.Construct | lib.php:96-163 | the constructor runs once per request, only with `$section` set, a course id and a course page; it then stores an in-range section both as `$section` and as the course's `$USER->display` entry, and leaves other courses' entries alone |
| DisplaySection.ConstructStoresResolved | lib.php:100-160 | without a section id, the `section` url parameter is what gets resolved and stored |
| DisplaySection.ConstructOnce | lib.php:96-98 | a second construction in the same request changes nothing |
| DisplaySection.NextRequestReopens | lib.php:96-160 | a later request for the course without a `section` parameter opens the section stored by the earlier one (multipage mode may turn 0 into 1) |
| DisplaySection.ResolvedSectionIsOpen | lib.php:132-157 | a user without the capability lands only on a section they can open, unless no top-level tab from the search start qualifies |
| SectionParents.NearestTopLevelBefore | lib.php:1005-1013 | reference definition: the nearest earlier section that starts a group |
| SectionParents.ParentScan | lib.php:1005-1015 | the single forward scan gives each section exactly the parent of the reference definition |
| SectionParents.ParentMap | lib.php:999-1016 | a section has no parent iff its number is at most the first tab section or its level is not positive; otherwise its parent is the nearest earlier section without one |
| SectionParents.SectionsExtra | lib.php:995-1016 | the first call computes the parent map and stores it in the memo |
| SectionParents.SectionsExtraMemoised | lib.php:995-997 | once stored, every later call returns the same map and memo, whatever sections it is given |
| SectionParents.AvailableHook | lib.php:1026-1043 | level-0 sections and children of an open parent are untouched; otherwise `available` becomes false and is never set to true; `availableinfo` is cleared only when the parent is not visible to the user |
| SectionParents.ChildOfClosedParentIsUnavailable | lib.php:1029-1043 | a child whose nearest top-level section is hidden or unavailable is never available |
| SectionParents.TopLevelSectionsUntouched | lib.php:1029-1033 | sections that start a group keep the availability the host evaluated |
| FormatOptions.FillOne | lib.php:757-770 | one option name: submitted values are kept, a missing name takes the previous course's value, else its fixed default, and no other name is added |
| FormatOptions.FillMissing | lib.php:753-772 | submitted keys are unchanged; a missing key comes from the previous course, else one of the four fixed defaults; any other missing key stays absent |
| FormatOptions.UpdateCourseFormatOptions | lib.php:750-775 | without a previous course the data is passed on unchanged; submitted values are never overwritten |
| FormatOptions.UpdateIdempotent | lib.php:753-772 | back-filling the result again changes nothing |
| Navigation.NavLinks | renderer.php:133-171 | "previous" is the nearest viewable section below the current one (not below 1 in multipage mode), "next" the nearest viewable one above it up to the last section; each is absent exactly when there is none; hidden targets are dimmed; viewable means the capability, `hiddensections` other than 1, or user-visible |
| TabTree.ScanParent | renderer.php:377-382 | the backward scan over level-1 sections stops at the first other section or at the first tab section |
| TabTree.BuildTabsWellBuilt | renderer.php:272-412 | the tab bar the loop builds meets the reference description: its sections are exactly the shown sections in order, and every top-level tab is well formed |
| TabTree.ShownListMembers | renderer.php:275-287 | a section is in the reference list iff it is shown and in range; the list is strictly increasing |
| TabTree.TabsFollowShownSections | renderer.php:272-287 | every shown section from the first tab section on has a tab of its own, no other section does, and tabs run in increasing section order |
| TabTree.TopTabShape | renderer.php:318-364 | a top-level tab is a shown level-0 section (or the first shown one); it is labelled with the section name and carries that section's classes; it is inactive iff the section is closed and the user lacks the capability; it is selected iff its section or a child is displayed; it never has exactly one child |
| TabTree.ChildTabShape | renderer.php:318-407 | a child tab is a shown section below the top level and is selected iff it is the displayed section |
| TabTree.IndexTabShape | renderer.php:366-397 | the index tab opens the parent's section with the parent's classes turned into level 1 and initial; it is always active, labelled with the scanned section's first tab text or "Index", and selected iff the scanned section is displayed |
| EditControls.OwnControls | renderer.php:764-787 | the highlight control exists iff the section is numbered, not past `numsections`, and the user may set the current section; it removes the marker on the marked section and sets it otherwise |
| EditControls.MenuOffWhenNotEditing | renderer.php:751-753 | outside editing mode the menu is empty |
| EditControls.RedirectDeleteKeys | renderer.php:791-799 | redirecting the delete link keeps every key in place |
| EditControls.MenuLookup | renderer.php:791-816 | in editing mode each key maps to the own (highlight) entry when that survives the merge, else to the base entry — the delete link now returning to section − 1 — else to the own entry |
| EditControls.BaseHighlightAfterEditWins | renderer.php:801-812 | a base "highlight" entry placed after "edit" replaces the format's own highlight control, on stealth sections too |
| EditControls.OwnHighlightBeforeEditWins | renderer.php:801-812 | a base "highlight" entry placed before "edit" is replaced by the format's own highlight control whenever that is offered |
| EditControls.OwnControlsFollowEdit | renderer.php:801-812 | with an "edit" entry the menu is: the base entries before "edit" (own value for a shared key), "edit", the own entries with new keys (overwritten in place by a later base entry with that key), then the remaining base entries |
| EditControls.MergeAfterEditLookup | renderer.php:805-810 | each key of the merged menu maps to the own entry when the base has "edit" and does not set that key again after it, else to the base entry, else to what was there |
| EditControls.MenuWithoutEdit | renderer.php:814-815 | without an "edit" entry the menu is `array_merge(own, base)`: own entries first, each overwritten by a base entry with its key, then the other base entries in order |
| OrderedMap.PutLookup | renderer.php:806 | writing a key makes it map to the new value and leaves every other key as it was |
| OrderedMap.MergeLookup | renderer.php:809 | `array_merge` with string keys: keys of the second array win, others keep the first array's value |
| OrderedMap.MergeDisjoint | renderer.php:814 | merging arrays without common keys appends |
| OrderedMap.MergeShape | renderer.php:809 | `array_merge` with string keys laid out: the first array's entries in place, taking the second array's value for a shared key, then the second array's new entries in order |
| Placeholders.DropLabels | lib.php:1139-1140 | deleting labels never lengthens the text and leaves colon-free text as it is |
| Placeholders.DropLabelsKeepsLastPart | lib.php:1139-1140 | what remains of a labelled text is its leading colons followed by the text after its last colon |
| Placeholders.DropLabelsIdempotent | lib.php:1139-1140 | deleting labels twice is deleting them once |
| Placeholders.UnbracketPlain | lib.php:1131-1133 | the brackets of a placeholder around bracket-free text come off whole |
| Placeholders.ReplaceTagOfName | lib.php:1129-1167 | `[[Name]]`, for a name without brackets or angles: without a colon it becomes the module's html with `{label_tag_replace}` in it naming the module; with a colon it takes the alternative-text branch, and the module name in the html becomes the name with its labels (everything up to its last colon) deleted |
| Placeholders.ColonName | lib.php:1135-1161 | a module named `lead:alt`, such as "Quiz: Week 1", is shown under `alt`: the html with the module name replaced by `alt` |
| Placeholders.ReplaceTagOfAlternative | lib.php:1131-1161 | a tag-free `[[Name:alternative]]` becomes the module's html with the module name replaced by the alternative text without its NUL characters; a name made only of NUL characters leaves the colon in front of it |
| Placeholders.MatchAt | renderer.php:985-986 | a match lies inside the text and reads `[[`, the name, a run without `]`, then `]]` |
| Placeholders.MatchAtPlaceholder | renderer.php:985-986 | conversely, `[[`, the name, a run without `]` and `]]` at the head of the text are matched, up to that first `]]` |
| Placeholders.SubstituteWithoutPlaceholder | renderer.php:985-986 | a summary that never opens a placeholder for the module is unchanged |
| Placeholders.SubstituteAtPlaceholder | renderer.php:985-986 | the first placeholder after bracket-free text goes to the callback whole, and scanning resumes after its `]]` |
| Placeholders.SubstituteName | renderer.php:985-986 | a summary holding one `[[Name]]`, after text without `[`, gets the module's html in its place (named by the text after the name's last colon when the name has one) and nothing else changes |
| Placeholders.SubstituteAlternative | renderer.php:985-986 | a summary holding one `[[Name:alt]]`, after text without `[`, gets the module's html, naming it by `alt` (NUL characters removed), in its place and nothing else changes |
| Template.ResourceStep | renderer.php:878-993 | a missing module or a label changes nothing; otherwise the module leaves the table iff its placeholder changed the summary; no other entry changes |
| Template.ReplaceResources | renderer.php:840-1002 | the module table only loses entries; with icons hidden the result opens with the `onetopic_hideicons` span; with no modules and icons shown the summary is returned as is |
| Template.ReplaceResourcesRemoves | renderer.php:883-993 | a module of the table is missing from the returned table iff the step for one of its occurrences in the section changed the running summary |
| Template.ReplaceResourcesLayout | renderer.php:970-1001 | for a section listing each module once, the result is the substituted summary (wrapped in the `onetopic_hideicons` span, opened and closed, when icons are hidden) followed by the availability boxes of the section's non-label modules in the table, in section order |
| Template.ScanCollectsBoxes | renderer.php:883-993 | every non-label module of the table that the section lists contributes its availability box, whether or not the summary names it |
| Template.ResourceScanOnlyRemoves | renderer.php:878-993 | the scan never removes a label or a module the section does not list, and never changes an entry |
| Template.StepKeepsUnreferenced | renderer.php:985-990 | a module the summary never names keeps its entry and leaves the summary unchanged |
| Template.StepRemovesReferenced | renderer.php:985-990 | a module named once by `[[Name]]`, after text without `[`, has its html put in place (named by the text after the name's last colon when the name has one) and leaves the table, unless that html is the placeholder itself |
| Template.ListedModulesSpec | renderer.php:1042-1062 | a module is listed iff the section holds it, it is still in the table or the page is being edited, it is not being moved, and its html is not empty; each module is listed once with its html, in section order |
| Template.ModuleItemsShape | renderer.php:1066-1076 | while moving, each module follows a "move here" target for it; otherwise the items are the modules |
| Template.CustomCmListHidesConsumed | renderer.php:1042-1055 | outside editing, a module the summary consumed is not listed; while editing, the module being moved is not |
| ModuleFilter.DeleteEachChangesIffOccurs | renderer.php:1340-1341 | the clean-up changes the html iff one of the empty paragraphs occurs in it |
| ModuleFilter.DeleteEachNeverGrows | renderer.php:1340-1341 | the clean-up never lengthens the html |
| ModuleFilter.SplitLines | renderer.php:1353 | splitting always gives at least one line, and no line holds a line break |
| ModuleFilter.SplitLinesJoin | renderer.php:1353 | put back together, the lines are the text with its CR and LF characters removed: splitting loses nothing else |
| ModuleFilter.SplitJoinedLines | renderer.php:1353 | lines joined by LF, by CR LF or by a lone CR split back into the same lines |
| ModuleFilter.ParseReplacerRoundTrip | renderer.php:1351 | `key|value` with a `|`-free key parses into that key and value |
| ModuleFilter.ReplacersHasKey | renderer.php:1349-1353 | a key has a replacer iff some line gives it |
| ModuleFilter.ReplacersLastWins | renderer.php:1349-1353 | a key's replacement is the one the last line for that key gives |
| ModuleFilter.FieldNameOfMarker | renderer.php:1355 | `%%name%%` names the field `name` |
| ModuleFilter.CmFilterOneField | renderer.php:1337-1362 | with the setting `%%name%%|replace`, every `%%name%%` becomes `replace` with `FIELD.VALUE` set to the field's value, or is deleted when the value is empty or missing |
| ModuleFilter.CmFilterWithoutHandler | renderer.php:1340-1344 | without the custom-field handler the html is unchanged iff it holds none of the empty paragraphs |
| TileText.IsEmptyOfPlainText | renderer.php:1472-1476 | text without markup is empty iff its characters other than blanks and NUL are none or a single `0` |
| TileText.IsEmptyIgnoresTag | renderer.php:1472-1476 | a tag in front never makes text non-empty, whatever `>` or other quote its single- or double-quoted attribute values hold |
| TileText.IsEmptyIgnoresComment | renderer.php:1472-1476 | nor does a comment in front, whatever it holds before its `-->` |
| TileText.BeforeLastTag | renderer.php:1487 | the left piece is the text before the source up to its last `<` (that `<` excluded), or empty when it has none |
| TileText.AfterFirstTagEnd | renderer.php:1488 | the right piece is the text after the source from just past its first `>`, or that text without its first character when it has no `>` |
| TileText.RejoinRemovesTag | renderer.php:1487-1493 | the pieces around a source inside one tag rejoin to the html without that tag, minus the empty ATTO paragraph |
| TileText.RemoveImageOnce | renderer.php:1484-1497 | when the source occurs once, inside one tag, exactly that tag is removed |
| TileText.RemoveImageSplitsTwice | renderer.php:1486-1488 | with the source twice, only the pieces before and between the occurrences are kept |
| TileText.RemoveImageDropsTail | renderer.php:1486-1488 | `<x>a<x>b` without source `x` comes out as `a<`: the text after the second occurrence is lost |
| TileText.RemoveImageAtFirstRemovesTag | renderer.php:1484-1497 | splitting at the first occurrence of a source inside one tag removes exactly that tag, whatever follows |
| TileText.RemoveImageAtFirstKeepsTail | renderer.php:1484-1497 | splitting at the first occurrence keeps the rest of `<x>a<x>b` |
| Stars.StarKeyInjective | lib.php:1183 | distinct modules never share a star preference |
| Stars.GetState | lib.php:1181-1186 | the first call reads the preference (default "false") and caches it; a star is exactly the string "true" |
| Stars.SetState | lib.php:1188-1191 | only the module's own preference is written |
| Stars.SetThenGet | lib.php:1181-1191 | what was set is read back, by the same object and by a new one |
| Stars.SetLeavesOthers | lib.php:1188-1191 | setting one module's star leaves every other module's star as it was |
| Stars.HandleAjax | ajax.php:49-69 | `star` stores `state ≠ 0` and answers with it; `togglestar` stores and answers the negation of the stored star; any other action changes nothing and answers `{}`; only the addressed module's preference changes |
| Stars.ToggleTwice | ajax.php:61-67 | toggling twice restores the star and normalises the stored value |
| Stars.AjaxLeavesOthers | ajax.php:52-67 | a request about one module never changes another module's star |
| PhpStrings.IndexOfIsFirstOccurrence | renderer.php:1488 | the search finds the first occurrence, and nothing when there is none |
| PhpStrings.ImplodeExplode | renderer.php:1486 | joining the pieces of `explode` with the separator gives the text back |
| PhpStrings.ReplaceAllIsImplodeExplode | lib.php:1132-1133 | `str_replace` is `explode` followed by `implode` with the replacement |
| TagStrip.Run | renderer.php:1473 | the scanner's output is never longer than the text it reads |
| TagStrip.StripTagsWithoutAngles | renderer.php:1473 | text without `<` comes out of `strip_tags` with only its NUL characters removed |
| TagStrip.StripTagsLeavesBareAngles | renderer.php:1473 | every `<` left after stripping is followed by a blank, so none opens a tag |
| TagStrip.ResumeInText | renderer.php:1473 | once a tag has closed with nothing nested or quoted, the rest of the text is stripped exactly as it would be on its own |
| TagStrip.StripTagsDropsTag | renderer.php:1473 | a tag without quotes at the head of the text is dropped up to its `>`, and the rest is stripped on its own |
| TagStrip.StripTagsDropsQuotedTag | renderer.php:1473 | a `>` or a single quote inside a double-quoted attribute value does not end the tag; the whole tag is dropped |
| TagStrip.StripTagsDropsTagBody | renderer.php:1473 | a tag at the head of the text whose attributes hold any number of closed single- or double-quoted values is dropped whole, and the rest is stripped on its own |
| TagStrip.PlainTagIsTagBody | renderer.php:1473 | every tag without quotes is such a tag body |
| TagStrip.StripTagsDropsComment | renderer.php:1473 | a `<!--` comment is dropped up to its first `-->`, whatever `>` or quotes it holds |
| TagStrip.StripTagsQuotedSample | renderer.php:1473 | `<i t="a>b">x` strips to `x` |
| TagStrip.StripTagsCommentSample | renderer.php:1473 | `<!-- a>b -->` strips to the empty string |
| TagStrip.StripTagsTwoValuesSample | renderer.php:1473 | `<a t="x>'" u='y>"'>z` strips to `z` |
| PhpStrings.EmptyAfterTrim | renderer.php:1474-1475 | trimmed text is PHP-empty iff its non-blank characters are none or a single `0` |
| PhpStrings.Trim | renderer.php:1474 | the trimmed text is one contiguous part of the text with only blanks before and after it; it has no blank at either end, is empty iff the text is all blanks, and keeps every other character |
| PhpStrings.NatToStringInjective | lib.php:1183 | distinct numbers print differently |

## Left out

- HTML output: tab markup, links, templates, language strings, and the move-section list of the tab loop. Tabs and links are records here.
- Database, capability and modinfo access. They are parameters: section records, booleans, maps, and a `render` function for module html. The request globals the constructor reads and writes (`self::$loaded`, `$section`, `$USER->display`) are the `RequestState` record; `$urlparams`, `set_url` and the hidden-section message are not modelled.
- TagStrip: `strip_tags` is modelled for an empty list of allowed tags, as the plugin calls it. The lemmas about a tag or comment at the head of the text require the rest not to open with `<?xml`, which PHP's scanner treats differently at position 0 than elsewhere; nested `<` and `<?`/`<!` blocks are modelled by `Run` but have no lemma of their own.
- Placeholders.ReplaceTagOfAlternative: stated for a name and alternative without brackets, colons or angles; the NUL characters `strip_tags` removes are accounted for.
- The `singletab`/`tabs` classes are not part of this model. Their `add`, `add_child` and `has_childs` are list operations on `TopTab`. An index tab is taken to start active and unselected.
- Placeholders.ReplaceTagOfName: stated for names without `[`, `]`, `<` or `>`; a name with brackets cannot be matched whole, and one with markup takes the `rewriteTagged` path below.
- Placeholders.ReplaceTag: a term with markup and a colon goes through five regular expressions around its tags. That rewriting is the `rewriteTagged` parameter, and only tag-free terms are proved about.
- Placeholders.MatchAt: the pattern's optional leading-tag group `(([<][^>]*>)*)` and its case-insensitivity are not modelled, and the name is matched literally, which is what `preg_quote` is for.
- Template.ReplaceResources: the section sequence is given as a list of module ids, so the `explode(",")` of the stored string is not modelled. The html of a module (name link, content, completion, availability box) comes in as a value.
- Template.ReplaceResourcesLayout: proved for sections that list each module once, as Moodle's `sequence` field does; with a repeated id a consumed module adds its box only at its first occurrence, and that case is not stated.
- Template.ResourceStep: `$newsummary != $summary` is taken as string inequality; PHP's loose comparison of two numeric strings is not modelled.
- TabTree.IndexClass: the class string is kept as structured facts. `str_replace('tab_level_0', 'tab_level_1', …)` and the appended ` tab_initial ` are modelled on that structure, not on the rendered string.
- Custom tab styles (`fontcolor`, `bgcolor`, `cssstyles`), availability messages, `time()`/`rand()` unique ids, and the `showyuidialogue` flag.
- Navigation.NavLinks: the current section must exist; the source never calls it with another.
- TileText.BeforeLastTag: under PHP 8, `strrpos` with offset -1 on an empty string throws; here it yields the empty string.
- DOM parsing in `get_image_from_description`, completion, tags, activity dates, and the custom-field handler lookup. The handler is a boolean and the field values a map.
- Form and option definitions, the availability of `classes/`, and navigation extension.

## Findings

| source | as written | input that shows it | evidently intended | confidence | as-written member | corrected member |
|---|---|---|---|---|---|---|
| renderer.php:1486-1488 | `explode($image, $html)` splits at every occurrence of the image source and keeps only pieces 0 and 1 | html `<x>a<x>b`, image `x`: the result is `a<` | remove only the tag holding the first occurrence and keep the rest (`a<x>b`), as `explode($image, $html, 2)` would | medium, not executed | TileText.RemoveImageDropsTail | TileText.RemoveImageAtFirstRemovesTag |
