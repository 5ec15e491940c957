/** The employee record of models/entities.py, reduced to what scheduling
    reads and writes. */
module Entities {

  /** An employee: a stable id, a skill list, and the two lists the
      scheduler fills in place. */
  class Employee {
    const id: int
    const skills: seq<string>
    /** Worked period indices, ascending once a schedule is generated. */
    var schedule: seq<int>
    /** Break period indices: markers over `schedule`, not removed from it. */
    var breaksTaken: seq<int>

    /** A new employee starts with no schedule and no breaks. */
    constructor (id: int, skills: seq<string>)
      ensures this.id == id && this.skills == skills
      ensures schedule == [] && breaksTaken == []
    {
      this.id := id;
      this.skills := skills;
      schedule := [];
      breaksTaken := [];
    }
  }
}
