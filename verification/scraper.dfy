/** The crawl state of `CheesecakeBlogScraper` (scraper.py `__init__`). */
module Scraper {

  /** `urlIndex` is the cursor into `queue` (`url_index`), `databaseIndex` the next
      record id (`database_index`), `visited` is `visited_links`, `queue` is
      `urls_to_visit`. The database client is not part of the model. */
  datatype State = State(
    urlIndex: nat,
    databaseIndex: nat,
    storeOnDatabase: bool,
    visited: seq<string>,
    queue: seq<string>)

  /** A fresh scraper: cursor 0, first record id 1, nothing visited or queued. */
  function Init(storeOnDatabase: bool): State {
    State(0, 1, storeOnDatabase, [], [])
  }
}
