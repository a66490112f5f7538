/**
  The records the broken-promise analysis reads. A callback graph node pairs a
  callback function with the context it was registered under. Abstract values
  are a type parameter V: the analysis only compares them with Value.equals and
  asks for their source locations, and both are passed to it as functions.
  The CallbackGraph class itself is not part of this model: its
  getAllCallbacks() is the sequence of nodes the analysis is given.
*/
module CallbackGraph {
  import opened Wrappers

  /**
    queueObject: the value the callback was registered on; None stands for a
    Java null. dependentQueueObject: the value produced by invoking the callback.
  */
  datatype CallbackContext<V> = CallbackContext(queueObject: Option<V>, dependentQueueObject: V)

  /** One observed registration: the pair (function, context). */
  datatype CallbackGraphNode<F, V> = CallbackGraphNode(callback: F, context: CallbackContext<V>)
}
