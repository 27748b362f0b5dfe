/** `invoke`: call a function, or a method named by a string, on every item. */
module Dispatch {
  import opened Wrappers

  /** What `invoke` calls on each item: a function, run with the item as its
      receiver and the extra arguments, or the name of a method to look up on
      each item. */
  datatype Target<!T, !A, R> = Func(f: (T, A) -> R) | Method(name: string)

  /** Why `invoke` stopped: the item at `index` has no callable property `name`. */
  datatype InvokeError = NotCallable(index: nat, name: string)

  /** The callable an item offers for `target`: the function itself, or the
      item's method of that name as `methods` reports it (`None` when the
      property is missing or is not a function). */
  function Resolve<T, A, R>(x: T, target: Target<T, A, R>, methods: (T, string) -> Option<(T, A) -> R>): Option<(T, A) -> R>
  {
    match target
    case Func(f) => Some(f)
    case Method(name) => methods(x, name)
  }

  /** The name reported when resolution fails. */
  function TargetName<T, A, R>(target: Target<T, A, R>): string
  {
    match target
    case Func(_) => ""
    case Method(name) => name
  }

  function InvokeFrom<T, A, R>(xs: seq<T>, target: Target<T, A, R>, args: A,
                               methods: (T, string) -> Option<(T, A) -> R>, i: nat): (r: Result<seq<R>, InvokeError>)
    requires i <= |xs|
    ensures r.Success? <==> forall k :: i <= k < |xs| ==> Resolve(xs[k], target, methods).Some?
    ensures r.Success? ==> |r.value| == |xs| - i
    ensures r.Success? ==>
      forall k :: i <= k < |xs| ==> r.value[k - i] == Resolve(xs[k], target, methods).value(xs[k], args)
    ensures r.Failure? ==>
      && i <= r.error.index < |xs|
      && r.error.name == TargetName(target)
      && Resolve(xs[r.error.index], target, methods).None?
      && forall k :: i <= k < r.error.index ==> Resolve(xs[k], target, methods).Some?
    decreases |xs| - i
  {
    if i == |xs| then Success([])
    else
      match Resolve(xs[i], target, methods)
      case None => Failure(NotCallable(i, TargetName(target)))
      case Some(g) =>
        var rest := InvokeFrom(xs, target, args, methods, i + 1);
        if rest.Failure? then rest else Success([g(xs[i], args)] + rest.value)
  }

  /** `invoke(xs, target, ...args)`: one result per item, in item order, each
      the target called on that item. It signals an error for the first item
      whose named property is not callable instead of skipping it. */
  function Invoke<T, A, R>(xs: seq<T>, target: Target<T, A, R>, args: A,
                           methods: (T, string) -> Option<(T, A) -> R>): (r: Result<seq<R>, InvokeError>)
    ensures r.Success? <==> forall k :: 0 <= k < |xs| ==> Resolve(xs[k], target, methods).Some?
    ensures r.Success? ==> |r.value| == |xs|
    ensures r.Success? ==>
      forall k :: 0 <= k < |xs| ==> r.value[k] == Resolve(xs[k], target, methods).value(xs[k], args)
    ensures r.Failure? ==>
      && r.error.index < |xs|
      && r.error.name == TargetName(target)
      && Resolve(xs[r.error.index], target, methods).None?
      && forall k :: 0 <= k < r.error.index ==> Resolve(xs[k], target, methods).Some?
  {
    InvokeFrom(xs, target, args, methods, 0)
  }

  /** Naming a method that every item resolves to `m` gives the same results
      as passing `m` itself. */
  lemma MethodNameActsAsFunction<T, A, R>(xs: seq<T>, name: string, m: (T, A) -> R, args: A,
                                          methods: (T, string) -> Option<(T, A) -> R>)
    requires forall k :: 0 <= k < |xs| ==> methods(xs[k], name) == Some(m)
    ensures Invoke(xs, Method(name), args, methods) == Invoke(xs, Func(m), args, methods)
  {
    var a, b := Invoke(xs, Method(name), args, methods), Invoke(xs, Func(m), args, methods);
    assert a.Success? && b.Success?;
    assert a.value == b.value;
  }
}
