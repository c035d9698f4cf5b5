/**
 * The scraped handbook as it is handed to the database layer
 * (cs_handbook/src/models.rs). The scraper that builds it is not modelled:
 * any value of these types is a possible input.
 */
module Models {
  /** A unit is known only by its name, e.g. "COS10009". */
  type Unit = string

  /** A major of the degree and the units listed under it, in page order. */
  datatype Major = Major(title: string, units: seq<Unit>)

  /** Everything one scrape produced: the majors, the core units and the elective units. */
  datatype Handbook = Handbook(majors: seq<Major>, cores: seq<Unit>, electives: seq<Unit>)
}
