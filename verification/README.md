# Security_Scan: what the checks decide

The repository bundles InSpec profiles, a console that runs them over a list of hosts, and the Heimdall
viewer that turns the results into statuses. This project models the parts whose outcome cannot be read
off one line, and proves what they decide, on all inputs:

- **Regular expressions** (`Regex`, `Matching`). The expressions the profiles use are syntax trees. They have
  two meanings: a positional language, and a backtracking search that lists every match in the order an
  engine tries them, with captures. `Regex.EndsAreDenotations` proves the search sound and complete for the
  language; every result about an expression below goes through these definitions.
- **Kubernetes checks** (`Numerals`, `ApiServer`, `FileModes`): expressions over a command line or an octal
  mode, against the arithmetic or positional condition they decide.
- **Process environment** (`Text`, `ProcessEnv`, `EtcdDataDir`, `EtcdCommands`): the parser with its memo, as a
  class; the data directory lookup with its `catch`/`throw`, over the command lines as Ruby prints them; agreement
  of the two readings of the same block.
- **Check-emitting loops** (`CheckLog`, `TomcatConnectors`, `TomcatErrorPages`, `Docker`, `DockerMounts`): a
  control appends entries to a log; an entry passes by "and", a `describe.one` by "or". Each loop is a method
  proved equal to a log function, and each log's verdict equal to a condition on the whole document or
  container list.
- **Text readings** (`Systemd`, `PropertiesFile`, `Targets`): two forms of one systemd line, continuation
  joining, the target list.
- **Heimdall** (`HdfStatus`, `Overlay`, `OverlayGraph`, `NistTags`, `NistHierarchy`): the status computed from
  results and impact, the graph of overlaid profiles and controls with its `root` getter, the reading and writing
  of NIST tags, and the tree of NIST controls.

Some results differ from what the code or its documentation suggests; the code is modelled as it is:

- The secure-port control looks at one digit: with the flag given once it rejects port 0 and nothing else
  (`ApiServer.SecurePortGivenOnce`), so ports above 65535 pass (`ApiServer.NonzeroPortPasses`).
- The 644 check accepts any mode with three fitting octal digits in a row, the 700 check any with two zeros in a
  row after another digit. `FileModes.Mode644Decides`, `FileModes.Mode644AndExecution` and
  `FileModes.Mode700Decides` say for every mode exactly where they differ from the permissions they stand for;
  modes 6447 and 1007 pass (`FileModes.Mode644AcceptsExecutable`, `FileModes.Mode700AcceptsWorld`).
- The search for `--data-dir=` runs over the printed list of command lines, so the path is what was given only if
  another word follows it in its command and none of its characters is escaped (`EtcdCommands.DirOfCommands`);
  with the flag last, `"]` becomes part of the path (`EtcdCommands.FlagLast`).
- The two lookups of ETCD_DATA_DIR agree on a block exactly when the bindings they choose have one value
  (`EtcdDataDir.LookupsAgreeOn`). They agree for all values only if the variable comes first and is bound once, or
  there is no variable at all (`EtcdDataDir.LookupsAgree`); for all values of one line they agree exactly when the
  first name with that prefix is the last name equal to it (`EtcdDataDir.LookupsAgreeOnLines`).
- With several `Service` elements the connector controls misjudge: `TomcatConnectors.FalseVerdict` and
  `TomcatConnectors.ServerVerdict` state the exact condition on every document, and two compliant documents that
  are rejected are given (`TomcatConnectors.CompliantServicesRejected`, `TomcatConnectors.HiddenServersRejected`).
- Control M-5.5 sets the impact of the whole control to zero when any container has no mounts, and Heimdall
  shows impact 0 as Not Applicable, so a failing mount check is not shown as Failed
  (`DockerMounts.CeMountsStatus`, `DockerMounts.SensitiveMountHidden`).
- `updateStatus` is documented to keep the worse of two statuses and keeps the milder one, so a group ends with
  the mildest status of all (`HdfStatus.GroupStatusIsMildest`). Nothing in the repository calls it.
- `root` can recurse for ever when profiles are among their own parents; `Overlay.RootReturnsIff` is the exact
  condition for each control of each evaluation. A profile that is its own parent is enough
  (`Overlay.OwnParentNeverReturns`); a cycle alone is not (`Overlay.CycleWithoutSharedIdReturns`).
- In the target list a host that contains `:` is cut short (`Targets.HostIsCut`, `Targets.AddressWithColons`).
- The NIST tree has a control as its parent's child as often as the control is listed
  (`NistHierarchy.ChildAsOftenAsListed`): TR-1 (1), which stands on lines 1795 and 1800 of
  `heimdall2-master/libs/inspecjs/src/raw_nist.ts`, is a child of TR-1 twice.

Two more results describe code as it would be on input that the repository does not give it:

- Nothing computes the status of a part of a control's results. If something did, the status of the whole would not
  always be the worst of the parts: `HdfStatus.StatusOfParts` is the exact condition, `HdfStatus.EmptyPartIsWorse`
  an example.
- The NIST tree is built once, from the list in `raw_nist.ts`. There each control's family is one of the families,
  its proper prefixes from two parts on are listed, and no part contains a dash, so by
  `NistHierarchy.AllReachedIff` nothing is lost. With another list it could be, because the stub made for an unlisted
  parent is never attached to anything: `NistHierarchy.OrphanNotReached` and `NistHierarchy.SharedNodeReached` show
  what another list would do.

Assumptions about code that is not in the repository. A query through InSpec's `xml` resource is an array of
texts, one per selected node; `cmp` with a text compares a one-element array by that element, through a
comparison left arbitrary in every theorem, and treats any other array as different. `describe.one` reports
one result. SimpleConfig matches its assignment expression against one line. A file mode is the twelve permission
bits. The `commands` of InSpec's `processes` resource are an array of texts, one per process.

## Model

| member | source | states |
|---|---|---|
| ApiServer.AlternativeMeans | profile/kubernetes/controls/1_2_master_node_api_server.rb:285 | each of the six alternatives, as a whole word, is the canonical decimal numerals of one interval |
| ApiServer.PortWordMeans | profile/kubernetes/controls/1_2_master_node_api_server.rb:285 | the port expression, as a whole word, is exactly the decimal numerals of 1..65535 |
| ApiServer.AlternativesAreDisjoint | profile/kubernetes/controls/1_2_master_node_api_server.rb:285 | no word is accepted by two alternatives |
| ApiServer.SecurePortVerdict | profile/kubernetes/controls/1_2_master_node_api_server.rb:283-291 | the control passes exactly when the flag is absent or some `--secure-port=` is followed by a digit 1-9 |
| ApiServer.SecurePortGivenOnce | profile/kubernetes/controls/1_2_master_node_api_server.rb:283-291 | with one flag and a decimal port n it passes exactly when n is not 0, whatever surrounds it |
| ApiServer.SecurePortStatus | profile/kubernetes/controls/1_2_master_node_api_server.rb:283-291 | Heimdall shows Passed or Failed by that verdict, never a Profile Error |
| ApiServer.NonzeroPortPasses | profile/kubernetes/controls/1_2_master_node_api_server.rb:283-291 | one flag with a port other than 0, however large, is enough whatever else stands on the command line |
| ApiServer.TokenMeans | profile/kubernetes/controls/1_2_master_node_api_server.rb:103-106 | a `--flag=(?:.)*Token,*(?:.)*` search succeeds exactly when the token stands at or after the end of the flag on the same line |
| ApiServer.AdmissionVerdict | profile/kubernetes/controls/1_2_master_node_api_server.rb:185-194 | the control passes exactly when SecurityContextDeny or PodSecurityPolicy follows the flag |
| ApiServer.AdmissionStatus | profile/kubernetes/controls/1_2_master_node_api_server.rb:185-194 | Heimdall shows Passed or Failed by that verdict, never a Profile Error |
| ApiServer.TokenInLaterArgument | profile/kubernetes/controls/1_2_master_node_api_server.rb:103-106 | the token may stand in a later argument of the command line |
| FileModes.Mode644Means | profile/kubernetes/controls/1_1_master_node_configuration_files.rb:25-27 | for every n the check accepts exactly when digits k, k+1 are in {0,2,4} and digit k+2 in {0,2,4,6} for some k with 8^(k+2) <= n |
| FileModes.Mode700Means | profile/kubernetes/controls/1_1_master_node_configuration_files.rb:217-220 | the data directory check accepts exactly when two adjacent octal digits, not the highest, are 0 |
| FileModes.Mode644Decides | profile/kubernetes/controls/1_1_master_node_configuration_files.rb:14-27 | for every mode, special bits included: exactly when the check decides "644 or more restrictive"; modes within 0644 from 0100 up are accepted |
| FileModes.Mode644AndExecution | profile/kubernetes/controls/1_1_master_node_configuration_files.rb:25-27 | for every mode: exactly when an accepted one is executable, and when one that is not is rejected |
| FileModes.Mode700Decides | profile/kubernetes/controls/1_1_master_node_configuration_files.rb:195-220 | for every mode: exactly when the data directory check decides "700 or more restrictive" |
| FileModes.DirectoryStatus | profile/kubernetes/controls/1_1_master_node_configuration_files.rb:217-224 | without a directory Not Reviewed is shown; with one, Passed exactly when the mode is accepted, else Failed |
| FileModes.Mode644AcceptsExecutable | profile/kubernetes/controls/1_1_master_node_configuration_files.rb:25-27 | mode 6447 is accepted and executable by all |
| FileModes.Mode700AcceptsWorld | profile/kubernetes/controls/1_1_master_node_configuration_files.rb:217-220 | mode 1007 is accepted although the world has all permissions |
| ProcessEnv.RoundTrip | profile/kubernetes/libraries/process_env_var.rb:33 | parsing the printed block of any bindings without NUL, names without `=`, gives their last-wins map |
| ProcessEnv.ParseRaises | profile/kubernetes/libraries/process_env_var.rb:33 | the parse raises exactly when an entry, trailing empty ones aside, has no `=` |
| ProcessEnv.LookupIsLast | profile/kubernetes/libraries/process_env_var.rb:14-33 | a lookup gives the value of the last binding of the name, and '' without one |
| ProcessEnv.LookupIsEmpty | profile/kubernetes/libraries/process_env_var.rb:14-16 | a lookup gives '' exactly when the name is unbound or last bound to '' |
| ProcessEnv.ProcessEnvVar.ReadParams | profile/kubernetes/libraries/process_env_var.rb:18-34 | with a memo: its value, without reading; without: an empty map for a file that is missing or reads as empty, else the parse of the content, remembered unless it raised |
| ProcessEnv.ProcessEnvVar.Get | profile/kubernetes/libraries/process_env_var.rb:14-16 | the lookup in what `read_params` returns, and the memo it leaves |
| ProcessEnv.ProcessEnvVar.GetAll | profile/kubernetes/libraries/process_env_var.rb:14-34 | a run of lookups on one resource answers and leaves what `Run` says |
| ProcessEnv.RunOverBindings | profile/kubernetes/libraries/process_env_var.rb:14-34 | over every run on a new resource: lookups raise while the file is malformed; the first file that is not is the last one read, and every later lookup gives the value of the last binding of the name in it, or '' |
| ProcessEnv.PrintedBinds | profile/kubernetes/libraries/process_env_var.rb:22-33 | a regular file that holds the printed block of some bindings, the empty content of a file that is not empty included, holds these bindings |
| ProcessEnv.FileBinds | profile/kubernetes/libraries/process_env_var.rb:22-33 | every file that is not malformed holds some bindings |
| ProcessEnv.EmptyBinds | profile/kubernetes/libraries/process_env_var.rb:22-31 | a missing file, and any file whose content is empty, holds none |
| ProcessEnv.MemoOverRuns | profile/kubernetes/libraries/process_env_var.rb:14-34 | over every run of lookups: they raise until one read returns, that read is the last, and all later answers come from the file as it was then |
| EtcdDataDir.FindDataDir | profile/kubernetes/controls/1_1_master_node_configuration_files.rb:201-215 | '' without a process; with one, the last captured flag; without a flag, it raises if the process has no environment, and is the value looked up in it otherwise, '' without an entry with the key; never nil |
| EtcdDataDir.CommandLineDir | profile/kubernetes/controls/1_1_master_node_configuration_files.rb:204-209 | the captured value is that of the first flag of the last word that has one, without white space; without a flag the environment decides |
| EtcdDataDir.SearchedTexts | profile/kubernetes/controls/1_1_master_node_configuration_files.rb:205-211 | the flag and the key that are searched for |
| EtcdCommands.ScanOfCommands | profile/kubernetes/controls/1_1_master_node_configuration_files.rb:204-206 | for every list of command lines, printed: the scan captures one value per word that has a flag, escaped, with the closing quote and comma or bracket if the word is the last of its command |
| EtcdCommands.InspectLayout | profile/kubernetes/controls/1_1_master_node_configuration_files.rb:205 | how an array of texts is printed |
| EtcdCommands.UnescapeUndoes | profile/kubernetes/controls/1_1_master_node_configuration_files.rb:205 | reading the printed text as a Ruby literal gives the command line back, for every command line |
| EtcdCommands.EscapeIsQuotable | profile/kubernetes/controls/1_1_master_node_configuration_files.rb:205 | nothing in the printed text ends the literal early or starts an interpolation |
| EtcdCommands.EscapeOnlyIfNeeded | profile/kubernetes/controls/1_1_master_node_configuration_files.rb:205 | a command line without a backslash that is such a text itself is printed as it is |
| EtcdCommands.DirOfCommands | profile/kubernetes/controls/1_1_master_node_configuration_files.rb:204-211 | the directory is the last of these, and is the path on the command line exactly when another word follows in the command and no character is escaped |
| EtcdCommands.FlagLast | profile/kubernetes/controls/1_1_master_node_configuration_files.rb:204-209 | with the flag last on the only command line a quote and a bracket end up in the path |
| EtcdDataDir.AdHocOfPrint | profile/kubernetes/controls/1_1_master_node_configuration_files.rb:211 | the ad hoc lookup gives the value of the first entry that has a line beginning with ETCD_DATA_DIR |
| EtcdDataDir.AdHocMeans | profile/kubernetes/controls/1_1_master_node_configuration_files.rb:211 | on any content, malformed included: '' without an entry that has a line beginning with the key, else what follows the first `=` of the first such entry, or all of it |
| EtcdDataDir.LookupsAgreeOn | profile/kubernetes/controls/1_1_master_node_configuration_files.rb:211 | on every well-formed block: the lookups agree exactly when the first binding with a line that begins with the key has the value of the last binding of the key |
| EtcdDataDir.LookupsAgree | profile/kubernetes/controls/1_1_master_node_configuration_files.rb:211 | they agree for all values, line breaks included, exactly when there is no variable or ETCD_DATA_DIR is the first and is bound once |
| EtcdDataDir.LookupsAgreeOnLines | profile/kubernetes/controls/1_1_master_node_configuration_files.rb:211 | they agree for all one-line values exactly when the first name with a line that begins with the key is the last one equal to it |
| EtcdDataDir.LookupsDifferOnLineBreak | profile/kubernetes/controls/1_1_master_node_configuration_files.rb:211 | a value with a line break can be taken for the setting |
| TomcatConnectors.CheckFalse | profile/tomcat-8/controls/M-2.6.rb:54-75 | adds one passing entry exactly when no connector carries the attribute, else one `describe.one` for each connector counted over the document; which, the specification says |
| TomcatConnectors.AllowTraceControl | profile/tomcat-8/controls/M-2.6.rb:54-75 | the control keeps the report free of failures exactly when each connector lacks allowTrace or has it false and no two collide |
| TomcatConnectors.ServerControl | profile/tomcat-8/controls/M-2.4.rb:57-90 | the log of both loops and the fallback, in order, and exactly when it adds no failure |
| TomcatConnectors.EachConnectorOnce | profile/tomcat-8/controls/M-2.6.rb:57-68 | however connectors are spread over services, the indices 1..total select each exactly once |
| TomcatConnectors.ConnectorsInOrder | profile/tomcat-8/controls/M-2.6.rb:57-59 | the connectors are queried in document order |
| TomcatConnectors.FalseVerdict | profile/tomcat-8/controls/M-2.6.rb:54-75 | on every document: passes exactly when each connector lacks the attribute or has it false, and no two at the same place of different services both have it |
| TomcatConnectors.FalseStatus | profile/tomcat-8/controls/M-2.6.rb:54-75 | on every document Heimdall shows Passed or Failed by that condition, never a Profile Error |
| TomcatConnectors.FalseVerdictOneService | profile/tomcat-8/controls/M-2.6.rb:54-75 | with one service: exactly when each connector lacks the attribute or has it false |
| TomcatConnectors.CompliantServicesRejected | profile/tomcat-8/controls/M-2.6.rb:54-75 | two services with one connector each, both with allowTrace false, are rejected |
| TomcatConnectors.ServerVerdict | profile/tomcat-8/controls/M-2.4.rb:57-90 | on every document: passes exactly when at most one service has connectors, each has a server other than Apache Tomcat, and xpoweredBy is absent or false |
| TomcatConnectors.ServerStatus | profile/tomcat-8/controls/M-2.4.rb:57-90 | on every document Heimdall shows Passed or Failed by that condition, never a Profile Error |
| TomcatConnectors.ServerLogLeaves | profile/tomcat-8/controls/M-2.4.rb:57-68 | the server loop leaves one entry of two results per connector counted over the document |
| TomcatConnectors.FalseLogLeaves | profile/tomcat-8/controls/M-2.4.rb:70-90 | the loop over xpoweredBy leaves one passing entry exactly when no connector has it, else one `describe.one` per connector |
| TomcatConnectors.HiddenServersRejected | profile/tomcat-8/controls/M-2.4.rb:57-90 | two services with one connector each, both with the server hidden, are rejected |
| TomcatErrorPages.StackTraceControl | profile/tomcat-8/controls/M-2.5.rb:69-117 | the log of the main file followed by that of each application |
| TomcatErrorPages.StackTraceVerdict | profile/tomcat-8/controls/M-2.5.rb:69-117 | passes exactly when every file has an error page and each error page has one exception type, java.lang.Throwable, and a location |
| TomcatErrorPages.StackTraceStatus | profile/tomcat-8/controls/M-2.5.rb:69-117 | how many checks of one result there are, counted over the files, and that Heimdall shows Passed or Failed by that condition, never a Profile Error |
| Docker.DockerPortsControl | profile/docker/controls/container_runtime.rb:209-220 | the log of the nested loops with their `next` |
| Docker.CePortsControl | profile/docker-ce/controls/M-5.7.rb:39-63 | the log of the nested loops with their skips, and the impact: 0 exactly without containers |
| Docker.EveryBindingOnce | profile/docker-ce/controls/M-5.7.rb:39-57 | skips aside, the checks are one per non-nil binding, in order, in both controls |
| Docker.BindingsMean | profile/docker-ce/controls/M-5.7.rb:39-57 | the bindings are the host ports of the published ports of all containers, and nothing else |
| Docker.BindingsInOrder | profile/docker-ce/controls/M-5.7.rb:39-57 | in the order of the containers |
| Docker.ContainersCounted | profile/docker-ce/controls/M-5.7.rb:39-57 | one entry per binding, and where unpublished ports are skipped one more per such port |
| Docker.PortControlsAgree | profile/docker-ce/controls/M-5.7.rb:39-63 | both controls fail exactly when some binding is privileged |
| Docker.PrivilegedNumeral | profile/docker-ce/controls/M-5.7.rb:47 | a binding on decimal port n is privileged exactly for n in 1..1024 |
| Docker.NilPortPasses | profile/docker-ce/controls/M-5.7.rb:47 | a binding without a host port is not privileged |
| Numerals.ToIOfNumeral | profile/docker-ce/controls/M-5.7.rb:47 | `to_i` of a numeral followed by anything but a digit or underscore is its number, sign included, unless a `d` turns a 0 into the `0d` prefix |
| Numerals.ToIOfWritten | profile/docker-ce/controls/M-5.7.rb:47 | `to_i` of blanks, a sign or none, and digits in groups joined by single underscores is the number of all the digits |
| Numerals.ToIAfterPrefix | profile/docker-ce/controls/M-5.7.rb:47 | after a `0d` prefix the numeral is read all the same |
| DockerMounts.DockerMountsControl | profile/docker/controls/container_runtime.rb:151-165 | the log of the mount loop |
| DockerMounts.CeMountsControl | profile/docker-ce/controls/M-5.5.rb:36-64 | the log of the mount loop, and the impact: 0 exactly when there is no container or one without mounts |
| DockerMounts.MountsCounted | profile/docker-ce/controls/M-5.5.rb:36-64 | one entry of eight checks per mount, and where containers without mounts are skipped one more per such container |
| DockerMounts.MountControlsAgree | profile/docker-ce/controls/M-5.5.rb:36-64 | both controls fail exactly when some mount source is `/` or contains one of the seven fragments |
| HdfStatus.ComputeStatus | heimdall2-master/libs/inspecjs/src/compat_impl/compat_inspec_1_0.ts:222-239 | each of the five statuses, exactly when the documented rules give it; never From Profile |
| HdfStatus.StatusOfParts | heimdall2-master/libs/inspecjs/src/compat_wrappers.ts:15-24 | however results are split, the status of the whole is the worst of the parts exactly when waived, without impact, with an error, or all or no parts say something |
| HdfStatus.EmptyPartIsWorse | heimdall2-master/libs/inspecjs/src/compat_wrappers.ts:15-24 | a part without results beside a passed one: the whole has passed, the worst part is a Profile Error |
| HdfStatus.GroupStatusIsMildest | heimdall2-master/libs/inspecjs/src/nist.ts:245-291 | for every starting status and every list: repeated updates yield the mildest of all, which is the worst exactly when all are the same; an empty group stays empty |
| HdfStatus.PrecedenceIsDocumented | heimdall2-master/libs/inspecjs/src/nist.ts:245-277 | the order of the statuses, an empty group first |
| HdfStatus.StatusOfLog | heimdall2-master/libs/inspecjs/src/compat_impl/compat_inspec_1_0.ts:222-239 | the status of a finished control in terms of its impact, its verdict and which outcomes it reported |
| HdfStatus.SegmentsInOrder | heimdall2-master/libs/inspecjs/src/compat_impl/compat_inspec_1_0.ts:222-239 | the results of a control stand in the order of its checks |
| HdfStatus.StatusOfChecks | heimdall2-master/libs/inspecjs/src/compat_impl/compat_inspec_1_0.ts:222-239 | a control that has checked something, and has an impact, is shown by its verdict |
| HdfStatus.StatusOfNothing | heimdall2-master/libs/inspecjs/src/compat_impl/compat_inspec_1_0.ts:222-239 | one that has left nothing, and has an impact, is a Profile Error |
| DockerMounts.CeMountsStatus | profile/docker-ce/controls/M-5.5.rb:36-64 | with any impact but 0, Heimdall shows Failed exactly when there is a sensitive mount and every container has mounts |
| DockerMounts.SensitiveMountHidden | profile/docker-ce/controls/M-5.5.rb:36-64 | with /etc mounted in one container and nothing in the other the check fails and Not Applicable is shown |
| DockerMounts.DockerMountsStatus | profile/docker/controls/container_runtime.rb:151-165 | Failed with a sensitive mount, else Passed with any mount, else Profile Error |
| DockerMounts.MountStatusesAgree | profile/docker-ce/controls/M-5.5.rb:36-64 | both profiles show the same status exactly when there is a container and every container has mounts |
| DockerMounts.PortStatuses | profile/docker-ce/controls/M-5.7.rb:39-63 | the statuses of both port controls, and exactly when they are the same |
| Systemd.CapturesOfLine | profile/docker/libraries/docker_helper.rb:69-75 | on every line with `=` the expression captures the stripped texts before and after the first one |
| Systemd.SliceForm | profile/docker-ce/controls/M-1.8.rb:31-35 | for any output: raises exactly without `=`; otherwise what follows the first one, to the last character that is not a blank, all lines included |
| Systemd.SliceOfLine | profile/docker-ce/controls/M-1.8.rb:31-35 | on one line the value is stripped on the right only |
| Systemd.FormsAgree | profile/docker-ce/controls/M-1.8.rb:31-35 | both forms read the same value exactly when it does not begin with a blank, blank values aside |
| Systemd.FragmentPathAgrees | profile/docker/libraries/docker_helper.rb:28-37 | every path without line breaks and leading blanks is read the same by both, `=` included |
| PropertiesFile.JoinUndoesBreaks | profile/tomcat-7/libraries/tomcat_properties_file.rb:43 | for every text and every choice of inserted breaks, joining restores the text exactly when its own continuations were all broken up, and removes 2 characters per LF and 3 per CRLF break |
| PropertiesFile.JoinOfPlainText | profile/tomcat-7/libraries/tomcat_properties_file.rb:43 | in particular for every text without backslashes |
| Targets.Poolmana | config/console.py:19-32 | the hosts scanned, in order, up to the first line without `@`, at which it raises |
| Targets.ReadLinesMean | config/console.py:19-22 | the lines joined are the file; only the last may be without a line feed, and none holds one elsewhere |
| Targets.HostOfTarget | config/console.py:26-28 | the host of `userinfo@host:port` is read back exactly when it has neither `:` nor `@` |
| Targets.HostOfLine | config/console.py:26-28 | on any line with an `@` the host is what stands between the last one and the first `:` after it, or the end of the line |
| Targets.HostIsCut | config/console.py:26-28 | a host with `:` and without `@` is read as its part before the first `:` |
| Targets.AddressWithColons | config/console.py:26-28 | of the host `::1` nothing is left |
| Targets.HostsOfPrint | config/console.py:19-32 | for every list of targets the hosts come out one per line in file order |
| Overlay.AncestorMeans | heimdall2-master/libs/inspecjs/src/context.ts:208-258 | a link joins controls of one id and, in a dependency, goes from a profile to one whose parent it is |
| Overlay.LinkedToFirst | heimdall2-master/libs/inspecjs/src/context.ts:217-231 | in a dependency a control is linked, to the first control of its id among the profiles extended |
| Overlay.UnlinkedShareRoot | heimdall2-master/libs/inspecjs/src/context.ts:233-257 | a control of a profile without dependencies is linked to the first populated control of its id, else to the first of its id, unless it is that one |
| Overlay.FallbackIsShared | heimdall2-master/libs/inspecjs/src/context.ts:233-257 | for every control there is such a control |
| Overlay.ParentMeans | heimdall2-master/libs/inspecjs/src/context.ts:181-186 | the parent is the first profile of the name given; there is none exactly when no name is given or nobody has it |
| Overlay.LinkedMeans | heimdall2-master/libs/inspecjs/src/context.ts:208-214 | a profile has dependencies exactly when it has a parent or is one |
| Overlay.RootReturnsIff | heimdall2-master/libs/inspecjs/src/context.ts:109-114 | for every control of every evaluation: `root` never returns exactly when its chain starts in a profile that is among its own parents and each profile of that cycle finds the id first in a profile of the cycle |
| Overlay.RootAlwaysReturnsIff | heimdall2-master/libs/inspecjs/src/context.ts:109-114 | `root` returns on every control, whatever controls the profiles hold, exactly when no profile is among its own parents |
| Overlay.OwnParentNeverReturns | heimdall2-master/libs/inspecjs/src/context.ts:109-114 | with one profile that is its own parent it returns on none of its controls |
| Overlay.CycleWithoutSharedIdReturns | heimdall2-master/libs/inspecjs/src/context.ts:109-114 | with two profiles that are each other's parents and share no id it returns on every control |
| OverlayGraph.Context.Contextualize | heimdall2-master/libs/inspecjs/src/context.ts:153-260 | after both linking loops all four lists are those of the specification |
| OverlayGraph.Context.LinkProfiles | heimdall2-master/libs/inspecjs/src/context.ts:175-193 | each profile lists the profiles whose parent it is, in order, and its parent |
| OverlayGraph.Context.FindAncestor | heimdall2-master/libs/inspecjs/src/context.ts:208-258 | the control a control is bound to, in each of the three cases |
| OverlayGraph.Context.Root | heimdall2-master/libs/inspecjs/src/context.ts:109-114 | the root is reached by following links, extends nothing and has the same id |
| OverlayGraph.LinksAreInverse | heimdall2-master/libs/inspecjs/src/context.ts:207-258 | `extendsFrom` and `extendedBy` are inverse, and no control extends more than one |
| NistTags.ParseTag | heimdall2-master/libs/inspecjs/src/nist.ts:183-214 | for a family, a dash and any text: the leading digits are the number, the words of the rest the further specifiers; no tag without digits or with more than 60 characters or a line end after them |
| NistTags.ParseRevision | heimdall2-master/libs/inspecjs/src/nist.ts:183-188 | for every text: a revision exactly when it is `rev` in any case, at least one blank, `_` or `.`, and then only digits, at least one; these digits are the revision |
| NistTags.ParseControl | heimdall2-master/libs/inspecjs/src/nist.ts:189-214 | for every text: a control exactly when it is two capitals, or these, a dash, digits and at most 60 characters without a line end; the words of these are the further specifiers |
| NistTags.ParsedIsWellFormed | heimdall2-master/libs/inspecjs/src/nist.ts:183-214 | whatever is read as a control has two capitals, digits and words without separators |
| NistTags.ClassesMean | heimdall2-master/libs/inspecjs/src/nist.ts:5-9 | the characters the expressions on a tag speak of |
| NistTags.Canonize | heimdall2-master/libs/inspecjs/src/nist.ts:126-168 | writes the text that `CanonicalTexts` spells out, read back as the control exactly when nothing is dropped, padded or run together and the rest is short enough |
| NistTags.CanonicalTexts | heimdall2-master/libs/inspecjs/src/nist.ts:126-168 | for every control and setting: the family, a dash, and per specifier its text, with a zero, parentheses, a period and a space where the setting has them |
| NistTags.NumberMeans | heimdall2-master/libs/inspecjs/src/nist.ts:137-138 | a specifier is a number exactly when blanks and a sign aside it starts with a digit, or with `0x` and a hexadecimal digit |
| NistTags.ReadBack | heimdall2-master/libs/inspecjs/src/nist.ts:126-214 | with nothing dropped or run together and a short tail: reading gives as many parts, each number as it was or with a zero before its one digit, and all else unchanged |
| NistTags.FormsInUse | heimdall2-master/libs/inspecjs/src/nist.ts:126-168 | AC-1 a 2 is looked up as AC-01 a 02, linked as AC-1, and AC-2 (3) exported as AC-02(03) |
| NistTags.RoundTripIff | heimdall2-master/libs/inspecjs/src/nist.ts:126-214 | for every control and every setting: parsing the canonical form gives the control back exactly when nothing is dropped, padded or run together and at most 60 characters follow the number |
| NistTags.DefaultRoundTrip | heimdall2-master/libs/inspecjs/src/nist.ts:22-31 | for every tag that parses, with spaces and letters and without padding only the number of specifiers and the length matter |
| NistTags.RoundTripForDescriptions | heimdall2-master/apps/frontend/src/utilities/nist_util.ts:1-8 | with the setting of the descriptions exactly controls of at most five parts, no one-digit number and a short tail come back |
| NistTags.RoundTripForLinks | heimdall2-master/apps/frontend/src/components/cards/controltable/ControlRowHeader.vue:187-192 | with the setting of the links the family and the number come back, and nothing else |
| NistTags.RoundTripForCaat | heimdall2-master/apps/frontend/src/components/global/ExportCaat.vue:62-67 | with the setting of the export exactly controls with at most one further specifier, a number, and no one-digit number come back |
| NistHierarchy.Hierarchy.Generate | heimdall2-master/libs/inspecjs/src/nist.ts:313-382 | after all controls each known key has one node with its last listed control, the children of every node are the controls listed under its key, in order, and the families are roots, with one more per listed control without parts |
| NistHierarchy.Hierarchy.Add | heimdall2-master/libs/inspecjs/src/nist.ts:331-378 | one more control keeps all of that, for the list with it |
| NistHierarchy.Hierarchy.Attach | heimdall2-master/libs/inspecjs/src/nist.ts:354-377 | the node is pushed onto its parent's children, or onto those of a stub made for the parent |
| NistHierarchy.ReachedIff | heimdall2-master/libs/inspecjs/src/nist.ts:313-382 | for every list in every order: the roots lead to a key exactly when a chain of listed controls leads from a family to it |
| NistHierarchy.ReachedIffPrefixes | heimdall2-master/libs/inspecjs/src/nist.ts:313-382 | for parts without dashes: they lead to a control exactly when its family is one of the families and it and its proper prefixes from two parts on are listed |
| NistHierarchy.AllReachedIff | heimdall2-master/libs/inspecjs/src/nist.ts:313-382 | every listed control is in the tree, and all are reached exactly when for each its family and proper prefixes from two parts on are listed |
| NistHierarchy.ChildAsOftenAsListed | heimdall2-master/libs/inspecjs/src/nist.ts:362-369 | a control is a child of its parent as often as it is listed |
| NistHierarchy.OrphanNotReached | heimdall2-master/libs/inspecjs/src/nist.ts:370-376 | in another list, a control without its parent would not be reached |
| NistHierarchy.SharedNodeReached | heimdall2-master/libs/inspecjs/src/nist.ts:309-311 | in another list, with a dash inside a part, two controls would share a node, and one would be reached without its parent being listed |

## Left out

- OverlayGraph.Context.Contextualize: names objects by their numbers instead of references, so aliasing is equality of numbers; lists are still updated in place, in the order of the source.
- Systemd.CapturesOfLine: covers lines without a line feed, which is what SimpleConfig hands to the expression; `strip` does not treat NUL as blank.
- EtcdCommands.ScanOfCommands: characters beyond ASCII are printed as they are, as Ruby does with printable ones.
- NistTags.ParseTag: a tag is a sequence of characters, each counted once; JavaScript counts those outside the basic plane twice.
- Targets.Poolmana: the file is a text with line feeds; the shell command run for each target is not modelled.
- HdfStatus.StatusOfLog: a control that was not waived and raised no error; `ComputeStatus` itself has both cases.
- `full_code`, `is_redundant` and the searches and counts of the Heimdall store: expressions over the graph modelled here.
- NistHierarchy.Hierarchy.Generate: the controls are those of the list after parsing; the raw text kept with a control is not modelled. Nodes are named by numbers instead of references.
- The SUID blacklist intersection and the flag-or-environment controls of the etcd node: each is one expression.
- SSH, nginx and kubernetes lookup tables, and all controls that are one constant expectation: a reading of the branch settles them.
- Running commands, reading files and talking to Docker: their results are inputs here.
- InSpec, RSpec, SimpleConfig and REXML are not part of this model beyond the assumptions stated above.
