/** Control M-2.5: the error pages of the main `web.xml` and of every web application's. */
module TomcatErrorPages {
  import opened CheckLog
  import opened HdfStatus

  /** An `error-page` element: the texts of its `exception-type` and `location` children. */
  datatype ErrorPage = ErrorPage(exceptionTypes: seq<string>, locations: seq<string>)

  /** The `error-page` children of one `web.xml`. */
  type WebXml = seq<ErrorPage>

  /** `web-app/error-page[i]` */
  function PageAt(pages: WebXml, i: nat): seq<ErrorPage> {
    if 1 <= i <= |pages| then [pages[i - 1]] else []
  }

  function PageEntries(same: Comparison, found: seq<ErrorPage>): seq<Entry> {
    var types := if found == [] then [] else found[0].exceptionTypes;
    var locations := if found == [] then [] else found[0].locations;
    [Describe([found != []]), Describe([Cmp(same, types, "java.lang.Throwable")]), Describe([locations != []])]
  }

  function PagesLog(same: Comparison, pages: WebXml, n: nat): seq<Entry> {
    if n == 0 then [] else PagesLog(same, pages, n - 1) + PageEntries(same, PageAt(pages, n))
  }

  function WebXmlLog(same: Comparison, pages: WebXml): seq<Entry> {
    PagesLog(same, pages, |pages|) + if pages == [] then [Describe([false])] else []
  }

  function AppsLog(same: Comparison, apps: seq<WebXml>): seq<Entry> {
    if apps == [] then [] else AppsLog(same, apps[..|apps| - 1]) + WebXmlLog(same, apps[|apps| - 1])
  }

  lemma LogStep(start: seq<Entry>, same: Comparison, pages: WebXml, n: nat)
    requires n > 0
    ensures start + PagesLog(same, pages, n - 1) + PageEntries(same, PageAt(pages, n))
         == start + PagesLog(same, pages, n)
  {}

  /** The three checks of one error page. */
  method EmitPage(same: Comparison, found: seq<ErrorPage>, report: Report)
    requires found != []
    modifies report`log
    ensures report.log == old(report.log) + PageEntries(same, found)
  {
    report.Emit(Describe([found != []]));
    report.Emit(Describe([Cmp(same, found[0].exceptionTypes, "java.lang.Throwable")]));
    report.Emit(Describe([found[0].locations != []]));
  }

  method CheckWebXml(same: Comparison, pages: WebXml, report: Report)
    modifies report`log
    ensures report.log == old(report.log) + WebXmlLog(same, pages)
  {
    var errorIter: nat := 1;
    var numConnectors := |pages|;
    while errorIter <= numConnectors
      invariant 1 <= errorIter <= numConnectors + 1
      invariant report.log == old(report.log) + PagesLog(same, pages, errorIter - 1)
      decreases numConnectors + 1 - errorIter
    {
      EmitPage(same, PageAt(pages, errorIter), report);
      LogStep(old(report.log), same, pages, errorIter);
      errorIter := errorIter + 1;
    }
    if |pages| == 0 {
      report.Emit(Describe([pages != []]));
    }
  }

  method StackTraceControl(same: Comparison, main: WebXml, apps: seq<WebXml>, report: Report)
    modifies report`log
    ensures report.log == old(report.log) + WebXmlLog(same, main) + AppsLog(same, apps)
  {
    CheckWebXml(same, main, report);
    for k := 0 to |apps|
      invariant report.log == old(report.log) + WebXmlLog(same, main) + AppsLog(same, apps[..k])
    {
      CheckWebXml(same, apps[k], report);
      assert apps[..k + 1][..k] == apps[..k];
    }
    assert apps[..|apps|] == apps;
  }

  /** One exception type, java.lang.Throwable, and at least one location. */
  predicate HidesStackTrace(same: Comparison, page: ErrorPage) {
    && |page.exceptionTypes| == 1 && same(page.exceptionTypes[0], "java.lang.Throwable")
    && page.locations != []
  }

  predicate Compliant(same: Comparison, pages: WebXml) {
    pages != [] && forall k | 0 <= k < |pages| :: HidesStackTrace(same, pages[k])
  }

  predicate AllCompliant(same: Comparison, apps: seq<WebXml>) {
    forall k | 0 <= k < |apps| :: Compliant(same, apps[k])
  }

  lemma AllCompliantStep(same: Comparison, apps: seq<WebXml>)
    requires apps != []
    ensures AllCompliant(same, apps)
       <==> AllCompliant(same, apps[..|apps| - 1]) && Compliant(same, apps[|apps| - 1])
  {
    assert forall k | 0 <= k < |apps| - 1 :: apps[..|apps| - 1][k] == apps[k];
  }

  lemma EntriesVerdict(same: Comparison, page: ErrorPage)
    ensures Verdict(PageEntries(same, [page])) <==> HidesStackTrace(same, page)
  {
    var log := PageEntries(same, [page]);
    assert Verdict(log) <==> Passes(log[0]) && Passes(log[1]) && Passes(log[2]);
    assert AllPass(log[0].results) <==> log[0].results[0];
    assert AllPass(log[1].results) <==> log[1].results[0];
    assert AllPass(log[2].results) <==> log[2].results[0];
  }

  lemma {:induction false} PagesVerdict(same: Comparison, pages: WebXml, n: nat)
    requires n <= |pages|
    ensures Verdict(PagesLog(same, pages, n)) <==> forall k | 0 <= k < n :: HidesStackTrace(same, pages[k])
    decreases n
  {
    if n > 0 {
      PagesVerdict(same, pages, n - 1);
      EntriesVerdict(same, pages[n - 1]);
      VerdictOfConcat(PagesLog(same, pages, n - 1), PageEntries(same, [pages[n - 1]]));
    }
  }

  lemma WebXmlVerdict(same: Comparison, pages: WebXml)
    ensures Verdict(WebXmlLog(same, pages)) <==> Compliant(same, pages)
  {
    PagesVerdict(same, pages, |pages|);
    var fallback := if pages == [] then [Describe([false])] else [];
    VerdictOfConcat(PagesLog(same, pages, |pages|), fallback);
    if pages == [] { assert !fallback[0].results[0]; }
  }

  lemma {:induction false} AppsVerdict(same: Comparison, apps: seq<WebXml>)
    ensures Verdict(AppsLog(same, apps)) <==> AllCompliant(same, apps)
    decreases |apps|
  {
    if apps != [] {
      var front, last := apps[..|apps| - 1], apps[|apps| - 1];
      AppsVerdict(same, front);
      WebXmlVerdict(same, last);
      VerdictOfConcat(AppsLog(same, front), WebXmlLog(same, last));
      AllCompliantStep(same, apps);
    }
  }

  /** The control passes exactly when the main file and every application's file have an error page
      and all their error pages hide the stack trace. */
  lemma StackTraceVerdict(same: Comparison, main: WebXml, apps: seq<WebXml>)
    ensures Verdict(WebXmlLog(same, main) + AppsLog(same, apps))
       <==> Compliant(same, main) && AllCompliant(same, apps)
  {
    WebXmlVerdict(same, main);
    AppsVerdict(same, apps);
    VerdictOfConcat(WebXmlLog(same, main), AppsLog(same, apps));
  }

  /** Three checks per error page, or one for a file without any. */
  function CheckCount(pages: WebXml): nat {
    if pages == [] then 1 else 3 * |pages|
  }

  function CheckCounts(apps: seq<WebXml>): nat {
    if apps == [] then 0 else CheckCounts(apps[..|apps| - 1]) + CheckCount(apps[|apps| - 1])
  }

  predicate SingleChecks(log: seq<Entry>) {
    forall k | 0 <= k < |log| :: log[k].Describe? && |log[k].results| == 1
  }

  lemma {:induction false} PagesCounted(same: Comparison, pages: WebXml, n: nat)
    ensures |PagesLog(same, pages, n)| == 3 * n && SingleChecks(PagesLog(same, pages, n))
    decreases n
  {
    if n > 0 { PagesCounted(same, pages, n - 1); }
  }

  lemma FileCounted(same: Comparison, pages: WebXml)
    ensures |WebXmlLog(same, pages)| == CheckCount(pages) && SingleChecks(WebXmlLog(same, pages))
  {
    PagesCounted(same, pages, |pages|);
  }

  lemma {:induction false} AppsCounted(same: Comparison, apps: seq<WebXml>)
    ensures |AppsLog(same, apps)| == CheckCounts(apps) && SingleChecks(AppsLog(same, apps))
    decreases |apps|
  {
    if apps != [] {
      AppsCounted(same, apps[..|apps| - 1]);
      FileCounted(same, apps[|apps| - 1]);
    }
  }

  /** What Heimdall shows, and how much the control checks: it is never a Profile Error. */
  lemma StackTraceStatus(same: Comparison, main: WebXml, apps: seq<WebXml>, impact: real)
    requires impact != 0.0
    ensures var log := WebXmlLog(same, main) + AppsLog(same, apps);
            && |log| == CheckCount(main) + CheckCounts(apps) && SingleChecks(log)
            && StatusOf(log, impact)
               == if Compliant(same, main) && AllCompliant(same, apps) then StatusPassed else StatusFailed
  {
    var log := WebXmlLog(same, main) + AppsLog(same, apps);
    FileCounted(same, main);
    AppsCounted(same, apps);
    assert IsCheck(log[0]);
    StatusOfChecks(log, impact);
    StackTraceVerdict(same, main, apps);
  }
}
