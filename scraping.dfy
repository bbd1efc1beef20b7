/** The browser-facing helpers of the scraper. A rendered page is a value:
    for every CSS selector the elements that match it, in document order,
    and the selectors whose lookup makes the driver raise. Each helper that
    the source wraps in a catch-all returns its default (an empty set, an
    empty string, an empty list, `None`) instead of raising; the two presence
    checks, which the source does not wrap, report the failure as an error. */
module Scraping {
  import opened Results
  import opened Sets

  const ItemLinkSelector := "div[class=feed-grid__item] a[href]"
  const NextPageSelector := "a[class*='Pagination__next']"
  const RejectCookiesSelector := "[id^='onetrust-reject-all-handler']"
  const CountryCellSelector := "[class*='web_ui__Cell__cell web_ui__Cell__default web_ui__Cell__clickable']"

  /** The country the scraper picks when the location dialog appears. */
  const DefaultCountry := "Česká republika"

  /** What the scraper reads from an element: its text, its `href`
      attribute, and whether it is displayed and enabled. */
  datatype Element = Element(text: string, href: string, clickable: bool)

  datatype Dom = Dom(matches: map<string, seq<Element>>, failing: set<string>)

  /** `driver.find_elements(By.CSS_SELECTOR, selector)`: the matches in
      document order, or Absent when the driver raises. */
  function FindElements(dom: Dom, selector: string): Lookup<seq<Element>> {
    if selector in dom.failing then Absent
    else if selector in dom.matches then Found(dom.matches[selector])
    else Found([])
  }

  /** Waiting for `presence_of_all_elements_located` (or for the first
      element's presence) succeeds exactly when some element matches. */
  function WaitForPresence(dom: Dom, selector: string): (r: Lookup<seq<Element>>)
    ensures r.Found? <==> FindElements(dom, selector).Found? && |FindElements(dom, selector).value| > 0
    ensures r.Found? ==> r.value == FindElements(dom, selector).value
  {
    match FindElements(dom, selector)
    case Found(els) => if |els| > 0 then Found(els) else Absent
    case Absent => Absent
  }

  /** Waiting for `element_to_be_clickable` and then `find_element`: the
      first match, provided it is clickable. */
  function WaitClickable(dom: Dom, selector: string): (r: Lookup<Element>)
    ensures r.Found? <==> WaitForPresence(dom, selector).Found? && FindElements(dom, selector).value[0].clickable
    ensures r.Found? ==> r.value == FindElements(dom, selector).value[0] && r.value.clickable
  {
    match WaitForPresence(dom, selector)
    case Found(els) => if els[0].clickable then Found(els[0]) else Absent
    case Absent => Absent
  }

  // ---------------------------------------------------------------- item links

  /** The `href` of every grid anchor, in document order; Absent when the
      wait times out or a lookup raises. */
  function ItemLinks(dom: Dom): (r: Lookup<seq<string>>)
    ensures r.Found? <==> WaitForPresence(dom, ItemLinkSelector).Found?
    ensures r.Found? ==> |r.value| == |FindElements(dom, ItemLinkSelector).value| > 0
    ensures r.Found? ==> forall i :: 0 <= i < |r.value| ==> r.value[i] == FindElements(dom, ItemLinkSelector).value[i].href
  {
    match WaitForPresence(dom, ItemLinkSelector)
    case Found(els) => Found(seq(|els|, i requires 0 <= i < |els| => els[i].href))
    case Absent => Absent
  }

  /** `links[1::2]`: the elements at odd indices. */
  function OddIndexed(links: seq<string>): (r: seq<string>)
    ensures |r| == |links| / 2
    ensures forall k :: 0 <= k < |r| ==> r[k] == links[2 * k + 1]
    decreases |links|
  {
    if |links| < 2 then [] else [links[1]] + OddIndexed(links[2..])
  }

  /** The pairing heuristic: each item card carries two anchors (seller,
      then item), so an even count yields the odd-indexed hrefs as a set and
      an odd count yields nothing at all. */
  function PairedItemLinks(links: seq<string>): (urls: set<string>)
    ensures |links| % 2 == 1 ==> urls == {}
    ensures |links| % 2 == 0 ==>
      forall u :: u in urls <==> exists i :: 0 <= i < |links| && i % 2 == 1 && links[i] == u
    ensures |urls| <= |links| / 2
  {
    if |links| % 2 == 0 then
      var odd := OddIndexed(links);
      ElemsCard(odd);
      forall u | u in Elems(odd)
        ensures exists i :: 0 <= i < |links| && i % 2 == 1 && links[i] == u
      {
        var k :| 0 <= k < |odd| && odd[k] == u;
        assert links[2 * k + 1] == u;
      }
      forall i | 0 <= i < |links| && i % 2 == 1 ensures links[i] in Elems(odd) {
        assert odd[i / 2] == links[i];
      }
      Elems(odd)
    else {}
  }

  /** `get_item_urls_from_page`: the paired hrefs of the page, or the empty
      set when the wait or a lookup fails. */
  function GetItemUrlsFromPage(dom: Dom): (urls: set<string>)
    ensures ItemLinks(dom).Absent? ==> urls == {}
    ensures ItemLinks(dom).Found? ==> urls == PairedItemLinks(ItemLinks(dom).value)
  {
    match ItemLinks(dom)
    case Found(links) => PairedItemLinks(links)
    case Absent => {}
  }

  // ---------------------------------------------------------------- buttons

  /** `get_next_page_button`: the pagination control when it is present and
      clickable, `None` otherwise; never raises. */
  function GetNextPageButton(dom: Dom): (r: Lookup<Element>)
    ensures r.Found? <==> WaitForPresence(dom, NextPageSelector).Found? && FindElements(dom, NextPageSelector).value[0].clickable
    ensures r.Found? ==> r.value == FindElements(dom, NextPageSelector).value[0]
  {
    WaitClickable(dom, NextPageSelector)
  }

  /** The element `click_to_reject_all_cookies_button` clicks, if any. */
  function RejectCookiesTarget(dom: Dom): (r: Lookup<Element>)
    ensures r.Found? <==> WaitForPresence(dom, RejectCookiesSelector).Found? && FindElements(dom, RejectCookiesSelector).value[0].clickable
    ensures r.Found? ==> r.value == FindElements(dom, RejectCookiesSelector).value[0]
  {
    WaitClickable(dom, RejectCookiesSelector)
  }

  /** A bare `find_elements` truth test. It is not guarded, so a driver
      failure propagates. */
  function ElementsPresent(dom: Dom, selector: string): (r: Result<bool>)
    ensures r.Ok? <==> FindElements(dom, selector).Found?
    ensures r.Ok? ==> (r.value <==> |FindElements(dom, selector).value| > 0)
    ensures r.Err? ==> r.error == DriverError
  {
    match FindElements(dom, selector)
    case Found(els) => Ok(|els| > 0)
    case Absent => Err(DriverError)
  }

  function CookiesButtonPresent(dom: Dom): (r: Result<bool>)
    ensures r == ElementsPresent(dom, RejectCookiesSelector)
  {
    ElementsPresent(dom, RejectCookiesSelector)
  }

  function CountryButtonPresent(dom: Dom): (r: Result<bool>)
    ensures r == ElementsPresent(dom, CountryCellSelector)
  {
    ElementsPresent(dom, CountryCellSelector)
  }

  /** `click_to_country_button`: walks the country cells in document order
      and clicks the first whose text is `country`, then stops. The returned
      index is the cell clicked; Absent when no cell matches or the lookup
      fails (the source raises and swallows a ValueError then). */
  method ClickToCountryButton(dom: Dom, country: string) returns (clicked: Lookup<nat>)
    ensures FindElements(dom, CountryCellSelector).Absent? ==> clicked.Absent?
    ensures FindElements(dom, CountryCellSelector).Found? ==>
      var cells := FindElements(dom, CountryCellSelector).value;
      (clicked.Absent? <==> forall j :: 0 <= j < |cells| ==> cells[j].text != country) &&
      (clicked.Found? ==> clicked.value < |cells| && cells[clicked.value].text == country &&
                          forall j :: 0 <= j < clicked.value ==> cells[j].text != country)
  {
    clicked := Absent;
    match FindElements(dom, CountryCellSelector)
    case Absent =>
    case Found(countries) =>
      var i := 0;
      while i < |countries|
        invariant 0 <= i <= |countries|
        invariant forall j :: 0 <= j < i ==> countries[j].text != country
      {
        if countries[i].text == country {
          clicked := Found(i);
          return;
        }
        i := i + 1;
      }
  }

  // ---------------------------------------------------------------- text scraping

  /** The first element matching `selector`, after waiting for it. */
  function FirstElement(dom: Dom, selector: string): (r: Lookup<Element>)
    ensures r.Found? <==> WaitForPresence(dom, selector).Found?
    ensures r.Found? ==> r.value == FindElements(dom, selector).value[0]
  {
    match WaitForPresence(dom, selector)
    case Found(els) => Found(els[0])
    case Absent => Absent
  }

  /** `scrape_element`: the first match's text, or "" when the lookup fails. */
  function ScrapeElement(dom: Dom, selector: string): (text: string)
    ensures FirstElement(dom, selector).Found? ==> text == FirstElement(dom, selector).value.text
    ensures FirstElement(dom, selector).Absent? ==> text == ""
  {
    match FirstElement(dom, selector)
    case Found(e) => e.text
    case Absent => ""
  }

  /** `scrape_elements`: every match's text in document order, or [] when
      the lookup fails. */
  function ScrapeElements(dom: Dom, selector: string): (texts: seq<string>)
    ensures WaitForPresence(dom, selector).Absent? ==> texts == []
    ensures WaitForPresence(dom, selector).Found? ==>
      var els := FindElements(dom, selector).value;
      |texts| == |els| && forall i :: 0 <= i < |els| ==> texts[i] == els[i].text
  {
    match WaitForPresence(dom, selector)
    case Found(els) => seq(|els|, i requires 0 <= i < |els| => els[i].text)
    case Absent => []
  }
}
