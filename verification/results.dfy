/** Failure-compatible wrappers shared by the attendance model, and the
    distinguishable ways a statistics run can fail. */
module Results {

  datatype Option<+T> = None | Some(value: T)

  datatype Result<+T, +E> = Ok(value: T) | Err(error: E)

  /** Why a statistics or export run stops. Each case is an exception the
      Python code lets escape (or, for NotFound, its `None` return). */
  datatype Failure =
    | MissingColumns            // fewer than two columns: `df.columns[1]` raises IndexError
    | NotFound                  // no cell mentions the worker: `get_stats` returns None
    | BadSelection(text: string)   // `int(selected_range.split("-")[0])` raises ValueError
    | BadDayLabel(dayText: string)   // `int(d_str.replace("일", ""))` raises ValueError
    | InvalidDate(year: int, month: int, day: int)  // `date(...)` raises ValueError
}
