/** The event record of the widget's in-memory store, and the store's six sample events. */
module Events {

  /** One event of the store. `kind` is the record's `type` field; `startMs` is its
      `date` as milliseconds since the epoch (`date.getTime()`). */
  datatype Event = Event(
    id: int,
    title: string,
    kind: string,
    startMs: int,
    description: string,
    speaker: string,
    image: string)

  /** The identifiers of `evs`, in order (`eventsToRender.map(e => e.id)`). */
  function Ids(evs: seq<Event>): (ids: seq<int>)
    ensures |ids| == |evs|
    ensures forall k :: 0 <= k < |evs| ==> ids[k] == evs[k].id
  {
    seq(|evs|, k requires 0 <= k < |evs| => evs[k].id)
  }

  /** The sample store. The dates are local-time constructions in the page; they are
      given here as if the page's time zone were UTC. */
  const Store: seq<Event> := [
    Event(1, "Keynote: The Future of AI", "Talk", 1765792800000,
      "An in-depth look at the next generation of artificial intelligence and its impact on the industry.",
      "Dr. Evelyn Reed", "images/ai.jpg"),
    Event(2, "Hands-on React Workshop", "Workshop", 1765809000000,
      "Build a single-page application from scratch using the latest React hooks and best practices.",
      "Mark O'Connell", "images/react.jpg"),
    Event(3, "Web3 & Blockchain Security", "Talk", 1765875600000,
      "Understanding the vulnerabilities and necessary security layers for decentralized applications.",
      "Samantha Poe", "images/web3.jpg"),
    Event(4, "Advanced CSS Grid Layouts", "Workshop", 1765890000000,
      "Mastering complex, responsive layouts without the use of frameworks.",
      "David Chen", "images/css.jpg"),
    Event(5, "Post-Event Networking Mixer", "Social", 1765994400000,
      "An informal gathering to meet fellow attendees, speakers, and sponsors.",
      "TechCon Staff", "images/mixer.jpg"),
    Event(6, "The Legacy of COBOL", "Talk", 1736503200000,
      "A historical look at the language that still powers modern banking and finance systems.",
      "Jessica Alba", "images/cobol.jpg")
  ]
}
