/**
 * com.gh4a.BackgroundTask: an AsyncTask that runs run() once on a worker,
 * keeps any exception it throws in a field, and then, back on the main
 * thread, calls exactly one of onError(exception) or onSuccess(result).
 * The thread hop is left out: the two phases are called one after the other.
 */
module Background {
  import opened Wrappers

  /**
   * What the subclass's run() does when it is called: return a value (None
   * is null) or throw an exception object e.
   */
  datatype Work<T, E> = Returns(value: Option<T>) | Throws(error: E)

  /** One invocation of a callback: onSuccess(result) or onError(e). */
  datatype Callback<T, E> = Succeeded(result: Option<T>) | Failed(error: E)

  /** The callback a task whose run() behaves as w delivers. */
  function Delivered<T, E>(w: Work<T, E>): (c: Callback<T, E>)
    ensures w.Returns? <==> c.Succeeded?
    ensures w.Returns? ==> c.result == w.value
    ensures w.Throws? ==> c.error == w.error
  {
    match w
    case Returns(v) => Succeeded(v)
    case Throws(e) => Failed(e)
  }

  /**
   * A background task with context type C, result type T and exception type E.
   * `callbacks` records, in order, each call of onSuccess or onError.
   */
  class BackgroundTask<C, T, E> {
    const context: C                      // mContext, final
    var exception: Option<E>              // mException, null until run() throws
    ghost var callbacks: seq<Callback<T, E>>

    constructor (context: C)
      ensures this.context == context
      ensures exception == None && callbacks == []
    {
      this.context := context;
      exception := None;
      callbacks := [];
    }

    /** getContext: the context given to the constructor. */
    method GetContext() returns (c: C)
      ensures c == context
    {
      return context;
    }

    /**
     * doInBackground: call run() (here: behave as `run`); a returned value is
     * passed on, a thrown exception is caught into the slot and null returned.
     */
    method DoInBackground(run: Work<T, E>) returns (result: Option<T>)
      modifies this`exception
      ensures run.Returns? ==> result == run.value && exception == old(exception)
      ensures run.Throws? ==> result == None && exception == Some(run.error)
    {
      match run {
        case Returns(v) =>
          return v;
        case Throws(e) =>
          exception := Some(e);
      }
      return None;
    }

    /** onSuccess, supplied by the subclass: only its invocation is recorded. */
    method OnSuccess(result: Option<T>)
      modifies this`callbacks
      ensures callbacks == old(callbacks) + [Succeeded(result)]
    {
      callbacks := callbacks + [Succeeded(result)];
    }

    /** The default onError: it does nothing beyond being invoked. */
    method OnError(e: E)
      modifies this`callbacks
      ensures callbacks == old(callbacks) + [Failed(e)]
    {
      callbacks := callbacks + [Failed(e)];
    }

    /**
     * onPostExecute: the exception slot, not the result, decides which
     * callback runs, and exactly one of them runs.
     */
    method OnPostExecute(result: Option<T>)
      modifies this`callbacks
      ensures exception.Some? ==> callbacks == old(callbacks) + [Failed(exception.value)]
      ensures exception.None? ==> callbacks == old(callbacks) + [Succeeded(result)]
    {
      if exception.Some? {
        OnError(exception.value);
      } else {
        OnSuccess(result);
      }
    }
  }

  /**
   * The life of one task as AsyncTask drives it: construct, doInBackground on
   * the worker, then onPostExecute with its result. Exactly one callback is
   * delivered, carrying run()'s value or the very exception it threw, and no
   * exception escapes.
   */
  method Execute<C, T, E>(context: C, run: Work<T, E>) returns (task: BackgroundTask<C, T, E>)
    ensures fresh(task)
    ensures task.context == context
    ensures task.callbacks == [Delivered(run)]
    ensures task.exception == (if run.Throws? then Some(run.error) else None)
  {
    task := new BackgroundTask(context);
    var result := task.DoInBackground(run);
    task.OnPostExecute(result);
  }
}
