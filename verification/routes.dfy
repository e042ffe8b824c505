/** The four routes and the cycle in which wheel navigation visits them:
    / -> /about -> /projects -> /contact -> /. */
module Routes {

  datatype Route = Home | About | Projects | Contact

  /** The path passed to `navigate`. */
  function Path(r: Route): string {
    match r
    case Home => "/"
    case About => "/about"
    case Projects => "/projects"
    case Contact => "/contact"
  }

  /** The page a downward wheel leads to. */
  function Next(r: Route): Route {
    match r
    case Home => About
    case About => Projects
    case Projects => Contact
    case Contact => Home
  }

  /** The page an upward wheel leads to. */
  function Prev(r: Route): Route {
    match r
    case Home => Contact
    case About => Home
    case Projects => About
    case Contact => Projects
  }

  /** Distinct routes have distinct paths. */
  lemma PathInjective(a: Route, b: Route)
    ensures Path(a) == Path(b) <==> a == b
  {
  }

  /** Up undoes down and down undoes up. */
  lemma PrevInvertsNext(r: Route)
    ensures Prev(Next(r)) == r && Next(Prev(r)) == r
  {
  }

  /** Four steps down return to the start, and no fewer do. */
  lemma NextIsFourCycle(r: Route)
    ensures Next(Next(Next(Next(r)))) == r
    ensures Next(r) != r && Next(Next(r)) != r && Next(Next(Next(r))) != r
  {
  }
}
