/** The four kinds of records the data store loads, keyed by their natural identifiers. */
module Entities {

  datatype Actor = Actor(id: string, username: string)

  datatype Repo = Repo(id: string, name: string)

  datatype Commit = Commit(sha: string, message: string, eventId: string)

  /** An event record as stored: its actor and repository are foreign keys that may dangle. */
  datatype Event = Event(id: string, eventType: string, actorId: string, repoId: string)

  /** The loaded stores: actors, commits (by SHA), events and repositories. */
  datatype DataStore = DataStore(
    actorStore: map<string, Actor>,
    commitStore: map<string, Commit>,
    eventStore: map<string, Event>,
    repoStore: map<string, Repo>)
}
