/** The exceptions the evaluation code can raise, as values. */
module Outcomes {

  datatype Option<T> = None | Some(value: T)

  /** One constructor per Python exception the modelled code can raise. */
  datatype Fault =
    | UnknownUser(user: string)      // ValueError: lst_users.index(user) finds no such user
    | UnknownItem(item: string)      // ValueError: lst_items.index(item) finds no such item
    | IndexOutOfRange(index: nat)    // IndexError: candidates[i] or lst_items[iid] past the end
    | MalformedLine(line: string)    // ValueError: `k, v = m.strip().split(':')` does not get two pieces
    | BadNumber(text: string)        // ValueError: int(...) or float(...) rejects the text
    | MissingSnapshot                // IndexError: bestPerformance[1] on a one-element list
    | MissingMetric                  // KeyError: performance[k] for a metric the new snapshot lacks
    | EmptyProgress                  // ZeroDivisionError: process_bar(0, 0) after an empty test set

  datatype Result<T> = Ok(value: T) | Err(fault: Fault)

  datatype Outcome = Pass | Fail(fault: Fault)
}
