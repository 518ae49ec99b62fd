# A Dafny model of ltc

`ltc` is the command line of Lattice. This project models the parts of it whose behaviour is hardest to
read off one body, and proves what they promise across functions, files and whole runs.

- **`.cfignore` engine.** `Globs` is the glob compiler: one pass over a pattern fills a slot array with regex
  pieces. `Regex` reads the emitted text back as a regular expression and says what it matches, including
  alternation, counted repetition, anchors, unanchored search and the fact that `.` excludes the newline.
  `GlobReading` is the reading of a whole pattern, and exactly when there is one. `GlobShapes` and `GlobMeaning`
  compare the expression with the documented notation, which is defined directly on the pattern. `Paths` is
  `path.Clean` and `path.Join` on components. `IgnoreSpec` reads ignore lines as a specification, `CfIgnore` holds the
  matcher object and its methods, `IgnoreFamily`, `IgnoreMeaning`, `IgnoreRooting`, `IgnoreClosure`,
  `IgnoreReachable` and `IgnoreVerdicts` prove the laws about lines and paths.
- **Image references.** `Docker` parses a reference, prints it as a rootfs URL and shows that as an image again.
- **Snapshot views.** `Snapshot` and `Apps` are the folds over one cluster snapshot: cells, apps, status, metrics.
  `Routing` and `Monitors` are routes and health monitors, built in one package and read back in others.
- **Step systems.** `LogPipeline` is the tail pipeline as a state machine over its atomic steps; `Polling` is the
  timeout loop against a clock.

`Text`, `Numbers`, `Sorting` and `Options` are shared vocabulary. Strings are sequences of Unicode scalar values.
A panic of the original is an ordinary outcome of the model (`Panic`, `Panicked`, `IndexPanic`).

Where the code falls short of its own documentation the code is modelled as it is, and the exact condition is proved:

- A glob keeps its documented meaning on newline-free paths if and only if it holds neither `|` nor a counted
  repetition such as `{2}` or `{1,3}`, and on all paths if and only if it holds no `**` either
  (`GlobMeaning.FaithfulWithoutNewlines`, `GlobMeaning.FaithfulEverywhere`).
- A line panics while parsing if and only if its cleaned pattern begins with a backslash, or with backslashes read as
  slashes has an empty component or a trailing slash, or holds a counted repetition that exceeds 1000, has its bounds
  in the wrong order, or directly follows a star, a bar or another counted repetition
  (`IgnoreFamily.ParsesExactlyWhenSafe`).
- For a relative line without `|` and counted repetition, rooting a newline-free path never changes the verdict if and
  only if the pattern does not open with a directory made of stars or, when it opens with a `..` component, is `..` itself or goes
  on with nothing but stars, or with two or more stars that no slash follows (`IgnoreRooting.RootingExactly`).
- A new matcher that has parsed a text without `!` lines can ignore a directory and keep a path below it if and only if
  a newline stands between the start of the directory's last component and the last slash of the path
  (`IgnoreReachable.ClosedExactly`).
- The image round trip loses an empty tag and a `library/x/y` remote, and nothing else (`Docker.ImageRoundTrip`); both
  losses occur (`Docker.EmptyTagIsLost`, `Docker.NestedRemoteIsLost`).
- The two route views differ if and only if a shown port has several routes, the last of which names a host
  (`Routing.ViewsAgree`).
- A monitor on port 0 without URI reads back as a command (`Monitors.MonitorRoundTrip`), and port 0 can be accepted
  (`Monitors.AcceptedMonitorIsShown`).
- `StopTailing` can return if and only if the reader has not already returned at a closed channel; otherwise it blocks
  for good (`LogPipeline.StoppableExactly`, `LogPipeline.StopBlocksOnSomeRun`).

## Model

| member | source | states |
|---|---|---|
| Globs.GlobReAccepts | droplet_runner/command_factory/cf_ignore/glob/glob.go:23-36 | the acceptance expression, read as a language of slash-led segments, accepts exactly "/" and the texts without empty component and without trailing slash |
| Globs.PiecesSnoc | droplet_runner/command_factory/cf_ignore/glob/glob.go:38-61 | adding one character on the right either completes a pending star to `.*` or appends one piece to the longest-match tokenization |
| Globs.TranslateGlob | droplet_runner/command_factory/cf_ignore/glob/glob.go:33-64 | the in-place pass with the double flag writes within bounds and yields the anchored concatenation of the longest-match tokenizer's pieces, or the glob error for unaccepted patterns |
| GlobReading.StarRun | droplet_runner/command_factory/cf_ignore/glob/glob.go:51-57 | a run of n stars becomes n/2 pieces `.*` and, for odd n, one `[^/]*` |
| GlobReading.ReadTranslation | droplet_runner/command_factory/cf_ignore/glob/glob.go:38-63 | the emitted text is an expression exactly when every counted repetition is in bounds and repeats one character or the anchor; it then reads as one item per token between its anchors, an unescaped `\|` as an alternative bar |
| GlobReading.CompiledForm | droplet_runner/command_factory/cf_ignore/glob/glob.go:68-90 | compilation succeeds exactly on the patterns that the acceptance expression matches after slash normalisation and whose counts may stand where they stand, and says how it fails on the others |
| GlobMeaning.MatchMeaning | droplet_runner/command_factory/cf_ignore/glob/glob.go:96-98 | without `\|` and counted repetition a compiled glob matches a path exactly when the notation denotes it, `**` not crossing newlines |
| GlobMeaning.BarBreaksContract | droplet_runner/command_factory/cf_ignore/glob/glob.go:42-47 | every compiled pattern with `\|`, counted repetition or not, has a path on which match and documentation differ |
| GlobMeaning.CountBreaksContract | droplet_runner/command_factory/cf_ignore/glob/glob.go:42-47 | so has every compiled pattern with a counted repetition: carrying the counts out never gives back the shortest documented texts |
| GlobMeaning.DoubleStarMissesNewlines | droplet_runner/command_factory/cf_ignore/glob/glob.go:51-57 | every pattern with `**` has a path with newlines that the documentation accepts and the code does not |
| GlobMeaning.FaithfulWithoutNewlines | droplet_runner/command_factory/cf_ignore/glob/glob.go:8-15 | documented meaning on all newline-free paths if and only if the pattern holds neither `\|` nor a counted repetition |
| GlobMeaning.FaithfulEverywhere | droplet_runner/command_factory/cf_ignore/glob/glob.go:8-15 | documented meaning on all paths if and only if the pattern holds neither `\|` nor a counted repetition nor `**` |
| Paths.CleanIdempotent | droplet_runner/command_factory/cf_ignore/cf_ignore.go:101 | cleaning a cleaned pattern changes nothing |
| Paths.CleanPrefix | droplet_runner/command_factory/cf_ignore/cf_ignore.go:101 | cleaning the front of a pattern first changes nothing |
| Paths.CleanParent | droplet_runner/command_factory/cf_ignore/cf_ignore.go:101 | `..` takes back exactly the one name before it, however long the path |
| Paths.CleanParentOfTop | droplet_runner/command_factory/cf_ignore/cf_ignore.go:101 | at the root `..` stays there, and where nothing is left to take back it is kept |
| Paths.CleanChild | droplet_runner/command_factory/cf_ignore/cf_ignore.go:101 | a name is kept behind the cleaned rest |
| Paths.NormalIsClean | droplet_runner/command_factory/cf_ignore/cf_ignore.go:101 | a path with `..` only at the front of a relative path and no other dots or empty components is already clean |
| IgnoreFamily.FamilyTexts | droplet_runner/command_factory/cf_ignore/cf_ignore.go:72-84 | the three or six joined and cleaned texts are the pattern, its children and deeper descendants, here and below `**`, where a leading `..` swallows the `**` |
| IgnoreFamily.ParsesExactlyWhenSafe | droplet_runner/command_factory/cf_ignore/glob/glob.go:84-90 | all globs of any cleaned pattern compile if and only if it is slash-safe and its counts may stand where they stand |
| IgnoreFamily.PlainLineParses | droplet_runner/command_factory/cf_ignore/cf_ignore.go:72-106 | a line without backslash and brace never panics |
| IgnoreFamily.CompiledRooted | droplet_runner/command_factory/cf_ignore/cf_ignore.go:60-62 | all compiled globs of a line begin with a slash exactly when its pattern does |
| IgnoreSpec.ScanLine | droplet_runner/command_factory/cf_ignore/cf_ignore.go:59-67 | scanning the globs of one line equals one line-level step on result and rewritten path |
| CfIgnore.GlobsForPattern | droplet_runner/command_factory/cf_ignore/cf_ignore.go:72-84 | appends the compiled globs of the family in order, or panics as the first failing one does |
| CfIgnore.ParsePatterns | droplet_runner/command_factory/cf_ignore/cf_ignore.go:86-107 | leaves the tagged globs of the non-blank lines in order, or the panic of the first bad line |
| CfIgnore.Matcher.constructor | droplet_runner/command_factory/cf_ignore/cf_ignore.go:38-42 | the default lines compile and are the initial pattern list |
| CfIgnore.Matcher.Parse | droplet_runner/command_factory/cf_ignore/cf_ignore.go:44-54 | appends the lines of the text; a read error or a panic leaves the object as it was; the default lines stay in front |
| CfIgnore.Matcher.ShouldIgnore | droplet_runner/command_factory/cf_ignore/cf_ignore.go:56-70 | returns the verdict of the last line that matches the path as that line sees it, false if none does |
| IgnoreVerdicts.NegatedLineKeeps | droplet_runner/command_factory/cf_ignore/cf_ignore.go:96-103 | in every file, a line `!p`, white space around it or not, makes the verdict false on every path that a glob of p matches, whatever the lines before it say, and decides no other path |
| IgnoreVerdicts.PlainLineIgnores | droplet_runner/command_factory/cf_ignore/cf_ignore.go:89-103 | in every file, a line p without `!` makes the verdict true on every path that a glob of p matches and decides no other path |
| IgnoreVerdicts.BlankLineDecidesNothing | droplet_runner/command_factory/cf_ignore/cf_ignore.go:90-93 | a line of white space changes no verdict and causes no panic |
| IgnoreVerdicts.UncompiledLinePanics | droplet_runner/command_factory/cf_ignore/cf_ignore.go:72-103 | a line with a pattern that does not compile makes the parse panic, negated or not |
| IgnoreVerdicts.DefaultVerdict | droplet_runner/command_factory/cf_ignore/cf_ignore.go:27-42 | among the newline-free paths a new matcher ignores exactly those with one of the seven unrooted default names as a component, or with the manifest as their first component |
| IgnoreVerdicts.NegatedNameKeeps | droplet_runner/command_factory/cf_ignore/cf_ignore.go:96-99 | a file with the line `!name` takes a default name back, with every newline-free path below it |
| CfIgnore.ScanRefinesLines | droplet_runner/command_factory/cf_ignore/cf_ignore.go:56-70 | the pattern-by-pattern loop with its mutated path refines the line-level verdict |
| CfIgnore.ParseTwiceIsParseJoined | droplet_runner/command_factory/cf_ignore/cf_ignore.go:44-54 | two texts parsed in turn leave the lines of the texts joined by a line break, and panic in the same cases |
| CfIgnore.ParsesExactly | droplet_runner/command_factory/cf_ignore/cf_ignore.go:86-107 | a text parses without panic if and only if every cleaned pattern is slash-safe with fitting counts |
| IgnoreMeaning.LineDenotes | droplet_runner/command_factory/cf_ignore/cf_ignore.go:72-84 | a line matches exactly the paths that one of its family's texts denotes |
| IgnoreRooting.RootingHolds | droplet_runner/command_factory/cf_ignore/cf_ignore.go:60-62 | when the leading stars of a relative pattern are followed by a non-slash, it matches a path iff it matches the rooted path, newlines included |
| IgnoreRooting.RootingExactly | droplet_runner/command_factory/cf_ignore/cf_ignore.go:60-62 | on newline-free paths rooting never changes the verdict of a relative line if and only if its pattern does not open with a directory of stars or, opening with `..`, is `..` or goes on with stars only or with several stars and no slash |
| IgnoreRooting.LeadingSlashInsensitive | droplet_runner/command_factory/cf_ignore/cf_ignore.go:27-70 | after New and any Parse calls a path and the same path with a leading slash get the same verdict |
| IgnoreClosure.LineCloses | droplet_runner/command_factory/cf_ignore/cf_ignore.go:72-84 | any line that matches a directory matches every path below it, bars and counted repetition included, unless a newline stands between |
| IgnoreClosure.DescendantsIgnored | droplet_runner/command_factory/zipper/zipper.go:66-68 | when exclude line k of any list matches a directory, every path below it is ignored unless a later `!` line matches that path |
| IgnoreClosure.NothingKeptBelow | droplet_runner/command_factory/zipper/zipper.go:66-68 | without `!` lines nothing below an ignored directory is kept |
| IgnoreReachable.UnsafeIsKept | droplet_runner/command_factory/cf_ignore/cf_ignore.go:27-42 | for every other directory and path there is a text which a new matcher, default lines included, parses and after which it ignores the directory and keeps the path |
| IgnoreReachable.ClosedExactly | droplet_runner/command_factory/cf_ignore/cf_ignore.go:56-84 | a new matcher carries a directory's verdict over to a path below it, whatever text without `!` lines it parses, if and only if no newline stands between the directory's last component and the path's last slash |
| Docker.ParseDockerRepoUrl | docker_runner/docker_repository_name_formatter/docker_repository_name_formatter.go:42-74 | index, remote and tag branch by branch, the refused name, and the panic on bare docker.io |
| Docker.BareReference | docker_runner/docker_repository_name_formatter/docker_repository_name_formatter.go:57-61 | a reference without slash names library/ and itself with no index; the tag is `latest` without colon, else what follows the last colon |
| Docker.HubReference | docker_runner/docker_repository_name_formatter/docker_repository_name_formatter.go:50-61 | behind `docker.io/` the index is `docker.io`, a name without slash gets library/ and a path is kept |
| Docker.HubNamesTheSameImage | docker_runner/docker_repository_name_formatter/docker_repository_name_formatter.go:45-66 | `x` and `docker.io/x` give the same remote and tag, or are refused alike |
| Docker.RegistryReference | docker_runner/docker_repository_name_formatter/docker_repository_name_formatter.go:62-65 | any other first part with a dot or colon, or `localhost`, is the index, and its path is kept as it is |
| Docker.PathReference | docker_runner/docker_repository_name_formatter/docker_repository_name_formatter.go:76-82 | any other first part stays in the remote, with no index |
| Docker.PanicsExactlyOnBareIndex | docker_runner/docker_repository_name_formatter/docker_repository_name_formatter.go:51-54 | the parser panics on `docker.io` and on nothing else |
| Docker.PrintedUrl | docker_runner/docker_repository_name_formatter/docker_repository_name_formatter.go:24-39 | exactly the references with `://` in them are refused for it; an accepted one is printed with scheme, index, remote and, unless empty, the tag as fragment |
| Docker.ParsedIsWellFormed | docker_runner/docker_repository_name_formatter/docker_repository_name_formatter.go:42-96 | an accepted reference has a tag free of slash and colon, a host-like index or none, and a remote with a slash and a non-host first part when no index is named |
| Docker.ShownImage | app_examiner/command_factory/app_examiner_command_factory.go:382-397 | showing a printed URL gives the index, the remote without library prefix, and the tag behind a colon |
| Docker.ShownRootFS | app_examiner/command_factory/app_examiner_command_factory.go:382-397 | scheme, one slash and one library/ are taken off the front of a rootfs |
| Docker.HashAt | app_examiner/command_factory/app_examiner_command_factory.go:393-395 | the last hash becomes the colon before the tag |
| Docker.ImageRoundTrip | docker_runner/docker_repository_name_formatter/docker_repository_name_formatter.go:24-39 | parse, print, show, parse gives back the same image if and only if the tag is not empty and, without index, the remote is not nested under library |
| Docker.EmptyTagIsLost | docker_runner/docker_repository_name_formatter/docker_repository_name_formatter.go:84-95 | every accepted reference `name:` has an empty tag and does not come back |
| Docker.NestedRemoteIsLost | app_examiner/command_factory/app_examiner_command_factory.go:382-397 | every reference `library/x/y…:tag` with an accepted name does not come back |
| Snapshot.SumIsCount | app_examiner/app_examiner.go:143-158 | counting per key loses and doubles nothing when every LRP in the state has a listed key |
| Snapshot.ListCells | app_examiner/app_examiner.go:121-161 | one entry per registered or active cell, with its counts, missing iff unregistered, in the order of the cell numbers |
| Snapshot.CellCounts | app_examiner/app_examiner.go:143-158 | an entry counts the positions of its cell's RUNNING and CLAIMED LRPs and is missing iff no registration names it |
| Snapshot.CellCapacity | app_examiner/app_examiner.go:128-136 | zone, memory, disk and containers are those of the cell's last registration, and zero for a missing cell |
| Snapshot.CellsListed | app_examiner/app_examiner.go:121-161 | a cell is listed, once, exactly when it is registered or holds an LRP that is not UNCLAIMED |
| Snapshot.NumberedInOrder | app_examiner/app_examiner.go:405-421 | cells `p-m` and `q-n` with numbers m < n stand in that order, whatever p and q are |
| Snapshot.UnnumberedLast | app_examiner/app_examiner.go:405-421 | cells without a number behind the last dash stand behind all numbered ones below the largest integer |
| Apps.MergeDesiredActual | app_examiner/app_examiner.go:263-323 | keys are desired and actual guids; each app has its desired details, its parsed monitor, its running count and its own LRPs as instances, a permutation sorted by index |
| Apps.InstancesAreLRPs | app_examiner/app_examiner.go:298-322 | the instances of an app correspond one to one with the LRPs of its guid: guid, cell, index, address, ports, state, since, placement error and crash count are equal field by field, without metrics, in the order of the indices |
| Apps.AppCounts | app_examiner/app_examiner.go:294-296 | the running count is the number of RUNNING LRPs of the guid |
| Apps.AppDesired | app_examiner/app_examiner.go:266-285 | desired instances, details and monitor are those of the guid's last desired LRP, and zero when nobody desires it |
| Apps.ListApps | app_examiner/app_examiner.go:163-176 | every merged app once, in the order of the guids |
| Apps.AppsListed | app_examiner/app_examiner.go:163-176 | an app is listed exactly when a desired or an actual LRP has its guid, strictly ascending: a proper prefix or the smaller character at the first difference comes first |
| Apps.RunningAppInstancesInfo | app_examiner/app_examiner.go:242-261 | number of RUNNING instances, and whether any has a placement error |
| Apps.CountOfGuid | app_examiner/app_examiner.go:242-261 | an app's running count is what RunningAppInstancesInfo counts for its guid |
| Apps.SnapshotConservation | app_examiner/app_examiner.go:121-176 | running over cells = running over apps = number of RUNNING LRPs, claimed over cells = number of CLAIMED LRPs |
| Apps.RunningWithinInstances | app_examiner/app_examiner.go:294-315 | an app's running count never exceeds its instances and equals them exactly when all run |
| Apps.JoinMetrics | app_examiner/app_examiner.go:206-223 | in place, each last holder of an index gets the last metric reported for it; all else is unchanged |
| Apps.MetricsOfInstance | app_examiner/app_examiner.go:206-223 | the last holder of an index gets CPU, memory and disk of the last report for it, each in its own field; every other instance and field is unchanged |
| Apps.AppStatus | app_examiner/app_examiner.go:178-225 | error, not-found and found cases, not found exactly when neither the desired LRP nor any actual one has the name; a found app is the merged one with joined metrics |
| Apps.MetricsJoin | app_examiner/app_examiner.go:206-224 | when the LRPs of the app have distinct indices, each instance of the found app carries the last metric of its own index iff there is one, keeps all else, and the instances ascend by index |
| Apps.OtherReportsIgnored | app_examiner/app_examiner.go:211-215 | a report for another index, anywhere in the stream, changes nothing |
| Routing.AppendDomainShape | app_runner/app_runner.go:447-453 | only the part before the first slash changes, and only when it holds no dot |
| Routing.AppendDomainIdempotent | app_runner/app_runner.go:447-453 | completing a host twice is completing it once |
| Routing.BuildRoutes | app_runner/app_runner.go:214-247 | unique ports, exactly the overridden ones, each with its hosts in order, for any map order; no routes at all with noRoutes |
| Routing.HostsInOrder | app_runner/app_runner.go:221-231 | the hosts of a port are its overrides, completed, one by one and in their order |
| Routing.HostnamesByPort | route_helpers/route_helpers.go:78-86 | each port that occurs maps to the hosts of its last route |
| Routing.LastHostsDecide | route_helpers/route_helpers.go:78-86 | the hosts of a port are those of the last route with it |
| Routing.GroupingLossless | app_runner/app_runner.go:221-231 | HostnamesByPort of built routes gives each port's completed hosts in override order |
| Routing.GetRoutes | app_examiner/command_factory/app_examiner_command_factory.go:174-210 | the entries of the list view, in order |
| Routing.ListViewOrder | app_examiner/command_factory/app_examiner_command_factory.go:174-210 | the list view shows the HTTP routes in order, each with its port's hosts, then the TCP routes in order, without those on foreign ports |
| Routing.PrintAppRoutes | app_examiner/command_factory/app_examiner_command_factory.go:613-660 | the entries of the status view, port by ascending port |
| Routing.StatusViewOrder | app_examiner/command_factory/app_examiner_command_factory.go:638-660 | the status view shows port by port, the hosts of each before its external ports |
| Routing.ExternalsInOrder | app_examiner/command_factory/app_examiner_command_factory.go:625-637 | the external ports of a port are its TCP routes, in their order |
| Routing.StatusCount | app_examiner/command_factory/app_examiner_command_factory.go:625-660 | each entry appears in the status view as often as its host or external port belongs to a port of the app |
| Routing.ViewsAgree | app_examiner/command_factory/app_examiner_command_factory.go:166-210 | both views show the same multiset of routes if and only if no shown port has several routes of which the last names a host |
| Routing.BuiltRoutesAgree | app_runner/app_runner.go:220-231 | for built routes the views agree and show exactly the HTTP and TCP routes on the app's ports |
| Numbers.PrintParse | app_examiner/app_examiner.go:335-339 | a printed number parses back in base 0 if it has 16 bits, and is refused otherwise |
| Numbers.PrefixedParse | app_examiner/app_examiner.go:335-339 | so do hexadecimal numbers behind 0x and octal numbers behind 0; what exceeds 16 bits is refused |
| Numbers.AtoiPrinted | app_examiner/app_examiner.go:411-413 | a printed number is read back with either sign and leading zeros, exactly up to 64 bits |
| Numbers.AtoiRefuses | app_examiner/app_examiner.go:411-413 | the empty text, a bare sign and any text with another character behind the sign are refused |
| Monitors.ParseMonitor | app_examiner/app_examiner.go:325-356 | port and URI of the last flags with values, else path and arguments |
| Monitors.MonitorShowsLastFlags | app_examiner/app_examiner.go:325-356 | for any arguments, the last valid port flag and the last URI flag are shown; with port 0 and no URI, path and arguments |
| Monitors.HealthCheckArguments | app_runner/app_runner.go:375-407 | the whole path and argument list of the health check for every method, with and without timeout |
| Monitors.MonitorRoundTrip | app_runner/app_runner.go:375-407 | port and URI monitors read back unchanged if and only if one of the two is not zero; custom commands always do |
| Monitors.GetMonitorConfig | app_runner/command_factory/app_runner_command_factory.go:549-606 | the chosen monitor, with 16-bit truncation of flags and the least exposed port as default, or the error |
| Monitors.NoMonitorThenCommand | app_runner/command_factory/app_runner_command_factory.go:550-559 | no-monitor wins over every other flag, a command over URL and port; neither carries the timeout |
| Monitors.UrlDecides | app_runner/command_factory/app_runner_command_factory.go:561-582 | a URL wins over a port; the text before its one colon is the port modulo 65536, which must be exposed, the text behind it the URI; no number is an invalid port |
| Monitors.PrintedUrlDecides | app_runner/command_factory/app_runner_command_factory.go:567-582 | any 64-bit number before the colon, of either sign, is read as that number |
| Monitors.UrlNeedsOneColon | app_runner/command_factory/app_runner_command_factory.go:562-565 | a URL with no colon or with more than one is an invalid port |
| Monitors.PortFlagDecides | app_runner/command_factory/app_runner_command_factory.go:590-606 | a positive port flag is taken modulo 65536 and accepted iff exposed |
| Monitors.LeastPortByDefault | app_runner/command_factory/app_runner_command_factory.go:584-606 | with no flag the accepted port is exposed and no exposed port is smaller |
| Monitors.PanicsExactlyWithoutPorts | app_runner/command_factory/app_runner_command_factory.go:584-591 | the panic occurs exactly when a port must be chosen and none is exposed |
| Monitors.CheckPortExposed | app_runner/command_factory/app_runner_command_factory.go:608-616 | true exactly for exposed ports |
| Monitors.BuildDefaultRoutingInfo | route_helpers/route_helpers.go:152-169 | one route per exposed port, in order, with its numbered host and on the primary port the bare one |
| Monitors.DefaultHostsByPort | route_helpers/route_helpers.go:152-179 | each exposed port has its numbered host, preceded by the bare host exactly on the monitored port, or on the first exposed one when none is monitored |
| Monitors.BuildRoutesWithDefaults | app_runner/app_runner.go:249-257 | built routes when any are asked for, default routes otherwise, none with noRoutes |
| Monitors.PrimaryPortChain | app_runner/app_runner.go:249-260 | after an accepted configuration the primary port is exposed and the bare host is routed, on primary ports only |
| Monitors.AcceptedMonitorIsShown | app_examiner/app_examiner.go:345-355 | an accepted port or URL monitor is shown with its own exposed port and URI if and only if one of the two is not zero; an accepted command always is |
| LogPipeline.PipelineSafety | logs/logs.go:27-55 | in every interleaving printed logs and errors are prefixes of those sent, with at most 22 of a kind and 32 in all under way |
| LogPipeline.FinishedPassedEveryLog | logs/logs.go:36-55 | a reader that has returned at the closed channel has passed on every log sent; only errors can be left behind |
| LogPipeline.LagBoundReached | logs/console_tailed_logs_outputter/console_tailed_logs_outputter.go:27-34 | some schedule leaves 22 logs sent and none printed |
| LogPipeline.StopIsFinal | logs/logs.go:36-46 | after the stop signal no callback runs and nothing enters the output channel, in every continuation |
| LogPipeline.StopAfterCloseBlocks | logs/logs.go:36-51 | once the reader has returned at a closed channel, StopTailing is never received, in every continuation |
| LogPipeline.StopBlocksOnSomeRun | logs/logs.go:36-51 | a run reaches that state with StopTailing waiting |
| LogPipeline.StoppableExactly | logs/logs.go:36-55 | from a reachable state some continuation lets StopTailing return, full buffers or not, if and only if the reader has not returned at a closed channel |
| LogPipeline.DrainPrintsEverything | logs/console_tailed_logs_outputter/console_tailed_logs_outputter.go:47-67 | there are never more moves than the distance still to go; after that many everything sent is on the screen; and with a running reader an order that cannot be continued has made them all |
| LogPipeline.DrainExists | logs/logs.go:41-54 | a running reader is never stuck: some schedule of moves reaches that point |
| Polling.InstancePoll.Call | app_runner/command_factory/app_runner_command_factory.go:353-361 | one observation: success, or a placement error that sets the captured flag |
| Polling.PollUntilSuccess | app_runner/command_factory/app_runner_command_factory.go:383-398 | terminates; polls before the deadline until the first success; true iff the last poll succeeded |
| Polling.PollUntilAllInstancesRunning | app_runner/command_factory/app_runner_command_factory.go:351-381 | true only if the last observation had the exact count and no placement error, where a failed observation counts as zero; the exit iff it had one |
| Polling.PollBound | app_runner/command_factory/app_runner_command_factory.go:383-398 | n polls need a timeout of more than n - 1 seconds |

## Left out

- GlobReading.CompiledForm: limits of the regexp package on the total size of an expression, which depend on its version.
- GlobMeaning.MatchMeaning: what an expression with `|` or counted repetition matches is defined by the regexp semantics and not given a second, pattern-level denotation; such patterns leave the documented meaning anyway.
- IgnoreMeaning.LineDenotes: lines with `|` or counted repetition, for the same reason.
- IgnoreRooting.RootingHolds: patterns with `|` or counted repetition, and those that open with a `..` component, which RootingExactly covers.
- IgnoreRooting.RootingExactly: patterns with `|` or counted repetition, which may match anywhere in a path.
- Docker.ImageRoundTrip: index and tag are restricted to characters that URL printing leaves unescaped, and the registry's name check is any predicate that allows only lowercase letters, digits, dots, underscores, dashes and slashes.
- Apps.AppStatus: decoding the routing information of a desired LRP; its routes are taken as decoded.
- Snapshot.ListCells: nothing is said about the order of cells with equal numbers, since the sort is not stable; counters that the source increments through pointers are replaced map entries, so aliasing is not captured.
- Sorting.Sort: promises an ordered permutation only; the in-place algorithm of Go's sort package is not modelled.
- Routing.GetRoutes: entries instead of formatted text, so separators, colours and columns are not modelled; a nil route list is the empty list, so absence in the encoded routing information is not captured.
- Monitors.MonitorRoundTrip: the text of a duration is any text that ends in `s`.
- Polling.PollUntilSuccess: the polled function is the instance poll with its captured flag, the only one the program passes; progress dots are not modelled.
- LogPipeline.PipelineSafety: the consumer never closes the error channel, and the formatting of a log line is its text.
- Invalid UTF-8 in ignore files and the byte order of strings that are not valid Unicode.
- Receptor, registry, storage, SSH and metrics clients: their answers are arbitrary inputs.
- JSON, XML and zip encoding, key generation, file persistence, terminal layout, CLI flags, droplet upload.
