/** The exceptions the router raises, one constructor per raise site. */
module Errors {

  datatype Error =
    | NoBlockProvided                        // `commands` without a block
    | InvalidNamespace(repr: string)         // a namespace that is not a Module
    | UnsupportedMatcher(repr: string)       // `on` with a name that is not a String, Symbol or Proc
    | CommandAndBlock                        // `run` given both a command object and a block
    | NotARunnerType                         // `mount` of something that is not a runner subclass
    | NoBlockGiven                           // `mount` of a runner subclass that never declared commands
    | UnsupportedRunnable(repr: string)      // a handler of no supported kind
    | UninitializedConstant(name: string)    // `const_get` found nothing under that name
    | UndefinedMethod(action: string)        // the instance has no method named by the action
    | DirectoryMissing(path: string)         // `add_dir` of a directory that does not exist
    | NoMethodForNil(selector: string)         // a method called on `nil`
    | NoMethodForSymbol(selector: string, symbol: string)  // a method called on a Symbol
    | NoMethodForModule(selector: string, moduleName: string)  // a method called on a module
    | WrongConstantName(name: string)      // `const_get` of a name that cannot be a constant
    | NotClassOrModule(path: string)       // `const_get` reached a value that is not a class or module before the path ended
    | NoMethodForValue(selector: string, repr: string)  // a method called on some other value

  /** The exception message as the source formats it. */
  function Message(e: Error): string
  {
    match e
    case NoBlockProvided => "no block provided"
    case InvalidNamespace(repr) => "invalid namespace: " + repr + ", needs to be a class or module."
    case UnsupportedMatcher(repr) => "unsupported matcher: " + repr
    case CommandAndBlock => "cannot provide both command object and block"
    case NotARunnerType => "A TTY::Runner type must be given"
    case NoBlockGiven => "no block given (yield)"
    case UnsupportedRunnable(repr) => "unsupported runnable: " + repr
    case UninitializedConstant(name) => "uninitialized constant " + name
    case UndefinedMethod(action) => "undefined method `" + action + "'"
    case DirectoryMissing(path) => "directory " + path + " does not exist"
    case NoMethodForNil(m) => "undefined method `" + m + "' for nil"
    case NoMethodForSymbol(m, s) => "undefined method `" + m + "' for :" + s
    case NoMethodForModule(m, name) => "undefined method `" + m + "' for module " + name
    case WrongConstantName(name) => "wrong constant name " + name
    case NotClassOrModule(path) => "\"" + path + "\" does not refer to class/module"
    case NoMethodForValue(m, repr) => "undefined method `" + m + "' for " + repr
  }
}
