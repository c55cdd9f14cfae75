/** The records the results service works on (runners/models). */
module Models {

  /**
   * models.Result: one race performance. `raceResult` is the "HH:MM:SS"
   * race-time string (the Go struct spells this field RaceResutl, while the
   * service reads RaceResult; the model has one field).
   */
  datatype Result = Result(
    id: string,
    runnerId: string,
    raceResult: string,
    location: string,
    position: int,
    year: int)

  /**
   * The runner record as the results service sees it: the best-time fields it
   * reads and writes, and `name`, which stands for every other field of the
   * record (the service never touches them). The runner's identifier is its
   * key in the runners table.
   */
  datatype Runner = Runner(name: string, personalBest: string, seasonBest: string)
}
