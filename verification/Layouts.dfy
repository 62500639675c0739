/** The layouts of containers and workspaces. */
module Layouts {
  datatype Layout = NoLayout | Horiz | Vert | Stacked | Tabbed | ScrollH
}
