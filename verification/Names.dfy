/** Names of Kubernetes objects. */
module Names {

  datatype NamespacedName = NamespacedName(namespace: string, name: string)
}
